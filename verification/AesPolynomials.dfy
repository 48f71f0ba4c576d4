/**
  What the AES byte operations mean: `gmul` is the product of polynomials over GF(2) modulo
  x^8 + x^4 + x^3 + x + 1, and the substitution table is the field inverse followed by the
  affine map (sections 4.2 and 5.1.1 of FIPS 197).
 */
module AesPolynomials {
  import opened AesTables
  import opened AesField

  // ----------------------------------------------------------------------- polynomials

  /** A polynomial with sixteen coefficients in GF(2). */
  function Poly(a: bv8): bv16 {
    a as bv16
  }

  function Add(p: bv16, q: bv16): bv16 {
    p ^ q
  }

  /** `p` times the coefficient of `b` under `mask`. */
  function Term(p: bv16, b: bv8, mask: bv8): bv16 {
    if b & mask != 0 then p else 0
  }

  /** The product of two polynomials of degree at most seven, term by term. */
  function Product(a: bv8, b: bv8): bv16 {
    var p := Poly(a);
    Add(Term(p, b, 1), Add(Term(p << 1, b, 2), Add(Term(p << 2, b, 4), Add(Term(p << 3, b, 8),
    Add(Term(p << 4, b, 16), Add(Term(p << 5, b, 32), Add(Term(p << 6, b, 64), Term(p << 7, b, 128))))))))
  }

  /** Adds a multiple of the modulus to clear the coefficient under `mask`. */
  function Clear(p: bv16, mask: bv16, multiple: bv16): bv16 {
    if Has(p, mask) then Add(p, multiple) else p
  }

  predicate Has(p: bv16, mask: bv16) {
    p & mask != 0
  }

  function Clear14(p: bv16): bv16 {
    Clear(p, 0x4000, 0x46C0)
  }

  function Clear13(p: bv16): bv16 {
    Clear(p, 0x2000, 0x2360)
  }

  function Clear12(p: bv16): bv16 {
    Clear(p, 0x1000, 0x11B0)
  }

  function Clear11(p: bv16): bv16 {
    Clear(p, 0x0800, 0x08D8)
  }

  function Clear10(p: bv16): bv16 {
    Clear(p, 0x0400, 0x046C)
  }

  function Clear9(p: bv16): bv16 {
    Clear(p, 0x0200, 0x0236)
  }

  function Clear8(p: bv16): bv16 {
    Clear(p, 0x0100, 0x011B)
  }

  /** The remainder modulo x^8 + x^4 + x^3 + x + 1, for degrees up to fourteen. */
  function Reduced(p: bv16): bv16 {
    Clear8(Clear9(Clear10(Clear11(Clear12(Clear13(Clear14(p)))))))
  }

  /** Every step adds a multiple of the modulus 0x11B. */
  lemma Multiples()
    ensures 0x46C0 == (0x11B as bv16) << 6 && 0x2360 == (0x11B as bv16) << 5 && 0x11B0 == (0x11B as bv16) << 4
    ensures 0x08D8 == (0x11B as bv16) << 3 && 0x046C == (0x11B as bv16) << 2 && 0x0236 == (0x11B as bv16) << 1
  {
  }

  lemma AddAssoc(p: bv16, q: bv16, r: bv16)
    ensures Add(Add(p, q), r) == Add(p, Add(q, r))
  {
  }

  lemma AddComm(p: bv16, q: bv16)
    ensures Add(p, q) == Add(q, p)
  {
  }

  lemma AddSelf(p: bv16)
    ensures Add(p, p) == 0 && Add(p, 0) == p && Add(0, p) == p
  {
  }

  lemma AddSwap(p: bv16, q: bv16, r: bv16, t: bv16)
    ensures Add(Add(p, q), Add(r, t)) == Add(Add(p, r), Add(q, t))
  {
    hide Add;
    AddAssoc(p, q, Add(r, t));
    AddAssoc(q, r, t);
    AddComm(q, r);
    AddAssoc(r, q, t);
    AddAssoc(p, r, Add(q, t));
  }

  /** Clearing a coefficient is additive when that coefficient is. */
  lemma ClearAdds(p: bv16, q: bv16, mask: bv16, multiple: bv16)
    requires Has(Add(p, q), mask) <==> Has(p, mask) != Has(q, mask)
    ensures Clear(Add(p, q), mask, multiple) == Add(Clear(p, mask, multiple), Clear(q, mask, multiple))
  {
    hide Add, Has;
    AddSwap(p, multiple, q, multiple);
    AddSelf(multiple);
    AddSelf(Add(p, q));
    AddAssoc(p, q, multiple);
    AddAssoc(p, multiple, q);
    AddComm(multiple, q);
  }

  lemma Has14Adds(p: bv16, q: bv16)
    ensures Has(Add(p, q), 0x4000) <==> Has(p, 0x4000) != Has(q, 0x4000)
  {
  }

  lemma Clear14Adds(p: bv16, q: bv16)
    ensures Clear14(Add(p, q)) == Add(Clear14(p), Clear14(q))
  {
    hide Add, Has, Clear;
    Has14Adds(p, q);
    ClearAdds(p, q, 0x4000, 0x46C0);
  }

  lemma Has13Adds(p: bv16, q: bv16)
    ensures Has(Add(p, q), 0x2000) <==> Has(p, 0x2000) != Has(q, 0x2000)
  {
  }

  lemma Clear13Adds(p: bv16, q: bv16)
    ensures Clear13(Add(p, q)) == Add(Clear13(p), Clear13(q))
  {
    hide Add, Has, Clear;
    Has13Adds(p, q);
    ClearAdds(p, q, 0x2000, 0x2360);
  }

  lemma Has12Adds(p: bv16, q: bv16)
    ensures Has(Add(p, q), 0x1000) <==> Has(p, 0x1000) != Has(q, 0x1000)
  {
  }

  lemma Clear12Adds(p: bv16, q: bv16)
    ensures Clear12(Add(p, q)) == Add(Clear12(p), Clear12(q))
  {
    hide Add, Has, Clear;
    Has12Adds(p, q);
    ClearAdds(p, q, 0x1000, 0x11B0);
  }

  lemma Has11Adds(p: bv16, q: bv16)
    ensures Has(Add(p, q), 0x0800) <==> Has(p, 0x0800) != Has(q, 0x0800)
  {
  }

  lemma Clear11Adds(p: bv16, q: bv16)
    ensures Clear11(Add(p, q)) == Add(Clear11(p), Clear11(q))
  {
    hide Add, Has, Clear;
    Has11Adds(p, q);
    ClearAdds(p, q, 0x0800, 0x08D8);
  }

  lemma Has10Adds(p: bv16, q: bv16)
    ensures Has(Add(p, q), 0x0400) <==> Has(p, 0x0400) != Has(q, 0x0400)
  {
  }

  lemma Clear10Adds(p: bv16, q: bv16)
    ensures Clear10(Add(p, q)) == Add(Clear10(p), Clear10(q))
  {
    hide Add, Has, Clear;
    Has10Adds(p, q);
    ClearAdds(p, q, 0x0400, 0x046C);
  }

  lemma Has9Adds(p: bv16, q: bv16)
    ensures Has(Add(p, q), 0x0200) <==> Has(p, 0x0200) != Has(q, 0x0200)
  {
  }

  lemma Clear9Adds(p: bv16, q: bv16)
    ensures Clear9(Add(p, q)) == Add(Clear9(p), Clear9(q))
  {
    hide Add, Has, Clear;
    Has9Adds(p, q);
    ClearAdds(p, q, 0x0200, 0x0236);
  }

  lemma Has8Adds(p: bv16, q: bv16)
    ensures Has(Add(p, q), 0x0100) <==> Has(p, 0x0100) != Has(q, 0x0100)
  {
  }

  lemma Clear8Adds(p: bv16, q: bv16)
    ensures Clear8(Add(p, q)) == Add(Clear8(p), Clear8(q))
  {
    hide Add, Has, Clear;
    Has8Adds(p, q);
    ClearAdds(p, q, 0x0100, 0x011B);
  }

  /** Reduction is additive. */
  lemma ReducedAdds(p: bv16, q: bv16)
    ensures Reduced(Add(p, q)) == Add(Reduced(p), Reduced(q))
  {
    hide Add, Clear14, Clear13, Clear12, Clear11, Clear10, Clear9, Clear8;
    Clear14Adds(p, q);
    Clear13Adds(Clear14(p), Clear14(q));
    Clear12Adds(Clear13(Clear14(p)), Clear13(Clear14(q)));
    Clear11Adds(Clear12(Clear13(Clear14(p))), Clear12(Clear13(Clear14(q))));
    Clear10Adds(Clear11(Clear12(Clear13(Clear14(p)))), Clear11(Clear12(Clear13(Clear14(q)))));
    Clear9Adds(Clear10(Clear11(Clear12(Clear13(Clear14(p))))), Clear10(Clear11(Clear12(Clear13(Clear14(q))))));
    Clear8Adds(Clear9(Clear10(Clear11(Clear12(Clear13(Clear14(p)))))), Clear9(Clear10(Clear11(Clear12(Clear13(Clear14(q)))))));
  }

  lemma Shift0(a: bv8)
    ensures Reduced(Poly(a)) == Poly(a)
  {
  }

  lemma Shift1(a: bv8)
    ensures Reduced(Poly(a) << 1) == Poly(XTime(a))
  {
  }

  lemma Shift2(a: bv8)
    ensures Reduced(Poly(a) << 2) == Poly(XTime(XTime(a)))
  {
  }

  lemma Shift3(a: bv8)
    ensures Reduced(Poly(a) << 3) == Poly(XTime(XTime(XTime(a))))
  {
  }

  lemma Shift4(a: bv8)
    ensures Reduced(Poly(a) << 4) == Poly(XTime(XTime(XTime(XTime(a)))))
  {
  }

  lemma Shift5(a: bv8)
    ensures Reduced(Poly(a) << 5) == Poly(XTime(XTime(XTime(XTime(XTime(a))))))
  {
  }

  lemma Shift6(a: bv8)
    ensures Reduced(Poly(a) << 6) == Poly(XTime(XTime(XTime(XTime(XTime(XTime(a)))))))
  {
  }

  lemma Shift7(a: bv8)
    ensures Reduced(Poly(a) << 7) == Poly(XTime(XTime(XTime(XTime(XTime(XTime(XTime(a))))))))
  {
  }

  // ------------------------------------------------------------------- what `gmul` computes

  /** `a` times the coefficient of `b` under `mask`. */
  function Part(a: bv8, b: bv8, mask: bv8): bv8 {
    if b & mask != 0 then a else 0
  }

  lemma GMulUnfold(a: bv8, b: bv8)
    ensures GMul(a, b) == Plus(Bit(a, b), GMul(XTime(a), Half(b)))
  {
    hide XTime;
    if b == 0 {
      assert Bit(a, 0) == 0 && Half(0) == 0;
      PlusZero(0);
    }
  }

  /** The bits of `b`, one half after the other. */
  lemma HalfBits(a: bv8, b: bv8)
    ensures Bit(a, b) == Part(a, b, 1)
    ensures Bit(a, Half(b)) == Part(a, b, 2)
    ensures Bit(a, Half(Half(b))) == Part(a, b, 4)
    ensures Bit(a, Half(Half(Half(b)))) == Part(a, b, 8)
    ensures Bit(a, Half(Half(Half(Half(b))))) == Part(a, b, 16)
    ensures Bit(a, Half(Half(Half(Half(Half(b)))))) == Part(a, b, 32)
    ensures Bit(a, Half(Half(Half(Half(Half(Half(b))))))) == Part(a, b, 64)
    ensures Bit(a, Half(Half(Half(Half(Half(Half(Half(b)))))))) == Part(a, b, 128)
    ensures Half(Half(Half(Half(Half(Half(Half(Half(b)))))))) == 0
  {
  }

  lemma PolyPlus(x: bv8, y: bv8)
    ensures Poly(Plus(x, y)) == Add(Poly(x), Poly(y))
  {
  }

  lemma ReducedZero()
    ensures Reduced(0) == 0 && Poly(0) == 0
  {
  }

  lemma Term0(a: bv8, b: bv8)
    ensures Reduced(Term(Poly(a), b, 1)) == Poly(Part(a, b, 1))
  {
    hide Reduced, Poly, XTime;
    Shift0(a);
    ReducedZero();
  }

  lemma Term1(a: bv8, b: bv8)
    ensures Reduced(Term(Poly(a) << 1, b, 2)) == Poly(Part(XTime(a), b, 2))
  {
    hide Reduced, Poly, XTime;
    Shift1(a);
    ReducedZero();
  }

  lemma Term2(a: bv8, b: bv8)
    ensures Reduced(Term(Poly(a) << 2, b, 4)) == Poly(Part(XTime(XTime(a)), b, 4))
  {
    hide Reduced, Poly, XTime;
    Shift2(a);
    ReducedZero();
  }

  lemma Term3(a: bv8, b: bv8)
    ensures Reduced(Term(Poly(a) << 3, b, 8)) == Poly(Part(XTime(XTime(XTime(a))), b, 8))
  {
    hide Reduced, Poly, XTime;
    Shift3(a);
    ReducedZero();
  }

  lemma Term4(a: bv8, b: bv8)
    ensures Reduced(Term(Poly(a) << 4, b, 16)) == Poly(Part(XTime(XTime(XTime(XTime(a)))), b, 16))
  {
    hide Reduced, Poly, XTime;
    Shift4(a);
    ReducedZero();
  }

  lemma Term5(a: bv8, b: bv8)
    ensures Reduced(Term(Poly(a) << 5, b, 32)) == Poly(Part(XTime(XTime(XTime(XTime(XTime(a))))), b, 32))
  {
    hide Reduced, Poly, XTime;
    Shift5(a);
    ReducedZero();
  }

  lemma Term6(a: bv8, b: bv8)
    ensures Reduced(Term(Poly(a) << 6, b, 64)) == Poly(Part(XTime(XTime(XTime(XTime(XTime(XTime(a)))))), b, 64))
  {
    hide Reduced, Poly, XTime;
    Shift6(a);
    ReducedZero();
  }

  lemma Term7(a: bv8, b: bv8)
    ensures Reduced(Term(Poly(a) << 7, b, 128)) == Poly(Part(XTime(XTime(XTime(XTime(XTime(XTime(XTime(a))))))), b, 128))
  {
    hide Reduced, Poly, XTime;
    Shift7(a);
    ReducedZero();
  }

  /** The multiples of `a` that the coefficients of `b` call for, added up. */
  function Parts(a: bv8, b: bv8): bv8 {
    var a1 := XTime(a);
    var a2 := XTime(a1);
    var a3 := XTime(a2);
    var a4 := XTime(a3);
    var a5 := XTime(a4);
    var a6 := XTime(a5);
    var a7 := XTime(a6);
    Plus(Part(a, b, 1), Plus(Part(a1, b, 2), Plus(Part(a2, b, 4), Plus(Part(a3, b, 8),
    Plus(Part(a4, b, 16), Plus(Part(a5, b, 32), Plus(Part(a6, b, 64), Part(a7, b, 128))))))))
  }

  lemma GMulSumOfParts(a: bv8, b: bv8)
    ensures GMul(a, b) == Parts(a, b)
  {
    hide Plus, XTime, Half, Bit, Part, GMul;
    var a1 := XTime(a);
    var a2 := XTime(a1);
    var a3 := XTime(a2);
    var a4 := XTime(a3);
    var a5 := XTime(a4);
    var a6 := XTime(a5);
    var a7 := XTime(a6);
    var b1 := Half(b);
    var b2 := Half(b1);
    var b3 := Half(b2);
    var b4 := Half(b3);
    var b5 := Half(b4);
    var b6 := Half(b5);
    var b7 := Half(b6);
    GMulUnfold(a, b);
    GMulUnfold(a1, b1);
    GMulUnfold(a2, b2);
    GMulUnfold(a3, b3);
    GMulUnfold(a4, b4);
    GMulUnfold(a5, b5);
    GMulUnfold(a6, b6);
    GMulUnfold(a7, b7);
    HalfBits(a, b);
    HalfBits(a1, b);
    HalfBits(a2, b);
    HalfBits(a3, b);
    HalfBits(a4, b);
    HalfBits(a5, b);
    HalfBits(a6, b);
    HalfBits(a7, b);
    GMulZero(XTime(a7));
    PlusZero(Part(a7, b, 128));
  }

  lemma GMulZero(a: bv8)
    ensures GMul(a, 0) == 0
  {
  }

  /** `gmul` is the product of the two polynomials modulo x^8 + x^4 + x^3 + x + 1. */
  lemma GMulIsProduct(a: bv8, b: bv8)
    ensures Poly(GMul(a, b)) == Reduced(Product(a, b))
  {
    hide Plus, XTime, Part, GMul, Poly, Add, Term, Reduced;
    GMulSumOfParts(a, b);
    Term0(a, b); Term1(a, b); Term2(a, b); Term3(a, b); Term4(a, b); Term5(a, b); Term6(a, b); Term7(a, b);
    var a1 := XTime(a);
    var a2 := XTime(a1);
    var a3 := XTime(a2);
    var a4 := XTime(a3);
    var a5 := XTime(a4);
    var a6 := XTime(a5);
    var a7 := XTime(a6);
    var s7, u7 := Part(a7, b, 128), Term(Poly(a) << 7, b, 128);
    var p6, t6 := Part(a6, b, 64), Term(Poly(a) << 6, b, 64);
    PolyPlus(p6, s7);
    ReducedAdds(t6, u7);
    var s6, u6 := Plus(p6, s7), Add(t6, u7);
    var p5, t5 := Part(a5, b, 32), Term(Poly(a) << 5, b, 32);
    PolyPlus(p5, s6);
    ReducedAdds(t5, u6);
    var s5, u5 := Plus(p5, s6), Add(t5, u6);
    var p4, t4 := Part(a4, b, 16), Term(Poly(a) << 4, b, 16);
    PolyPlus(p4, s5);
    ReducedAdds(t4, u5);
    var s4, u4 := Plus(p4, s5), Add(t4, u5);
    var p3, t3 := Part(a3, b, 8), Term(Poly(a) << 3, b, 8);
    PolyPlus(p3, s4);
    ReducedAdds(t3, u4);
    var s3, u3 := Plus(p3, s4), Add(t3, u4);
    var p2, t2 := Part(a2, b, 4), Term(Poly(a) << 2, b, 4);
    PolyPlus(p2, s3);
    ReducedAdds(t2, u3);
    var s2, u2 := Plus(p2, s3), Add(t2, u3);
    var p1, t1 := Part(a1, b, 2), Term(Poly(a) << 1, b, 2);
    PolyPlus(p1, s2);
    ReducedAdds(t1, u2);
    var s1, u1 := Plus(p1, s2), Add(t1, u2);
    var p0, t0 := Part(a, b, 1), Term(Poly(a), b, 1);
    PolyPlus(p0, s1);
    ReducedAdds(t0, u1);
  }

  // ------------------------------------------------------------------------- the S-box

  function Turn(x: bv8, k: bv4): bv8
    requires 0 < k < 8
  {
    (x << k) | (x >> (8 - k))
  }

  /** The affine map of the substitution. */
  function Affine(x: bv8): bv8 {
    x ^ Turn(x, 1) ^ Turn(x, 2) ^ Turn(x, 3) ^ Turn(x, 4) ^ 0x63
  }

  function Unaffine(y: bv8): bv8 {
    Turn(y, 1) ^ Turn(y, 3) ^ Turn(y, 6) ^ 0x05
  }

  lemma AffineInverse(x: bv8)
    ensures Affine(Unaffine(x)) == x && Unaffine(Affine(x)) == x
  {
  }

  /** What the table inverts before the affine map. */
  function Inverse(x: bv8): bv8 {
    Unaffine(SBox(x))
  }

  lemma PartsInverse0(x: bv8)
    requires x & 0xE0 == 0x00 && x != 0
    ensures Parts(x, Inverse(x)) == 1
  {
  }

  lemma PartsInverse1(x: bv8)
    requires x & 0xE0 == 0x20 && x != 0
    ensures Parts(x, Inverse(x)) == 1
  {
  }

  lemma PartsInverse2(x: bv8)
    requires x & 0xE0 == 0x40 && x != 0
    ensures Parts(x, Inverse(x)) == 1
  {
  }

  lemma PartsInverse3(x: bv8)
    requires x & 0xE0 == 0x60 && x != 0
    ensures Parts(x, Inverse(x)) == 1
  {
  }

  lemma PartsInverse4(x: bv8)
    requires x & 0xE0 == 0x80 && x != 0
    ensures Parts(x, Inverse(x)) == 1
  {
  }

  lemma PartsInverse5(x: bv8)
    requires x & 0xE0 == 0xA0 && x != 0
    ensures Parts(x, Inverse(x)) == 1
  {
  }

  lemma PartsInverse6(x: bv8)
    requires x & 0xE0 == 0xC0 && x != 0
    ensures Parts(x, Inverse(x)) == 1
  {
  }

  lemma PartsInverse7(x: bv8)
    requires x & 0xE0 == 0xE0 && x != 0
    ensures Parts(x, Inverse(x)) == 1
  {
  }

  lemma HighBits(x: bv8)
    ensures x & 0xE0 == 0x00 || x & 0xE0 == 0x20 || x & 0xE0 == 0x40 || x & 0xE0 == 0x60
         || x & 0xE0 == 0x80 || x & 0xE0 == 0xA0 || x & 0xE0 == 0xC0 || x & 0xE0 == 0xE0
  {
  }

  /** The substitution is the multiplicative inverse, zero for zero, followed by the affine map. */
  lemma SBoxIsAffineInverse(x: bv8)
    ensures SBox(x) == Affine(Inverse(x))
    ensures x != 0 ==> GMul(x, Inverse(x)) == 1
    ensures Inverse(0) == 0
  {
    InverseOfZero();
    hide SBox, Affine, Unaffine, Parts, GMul;
    AffineInverse(SBox(x));
    GMulSumOfParts(x, Inverse(x));
    if x != 0 {
      HighBits(x);
      if x & 0xE0 == 0x00 {
        PartsInverse0(x);
      } else if x & 0xE0 == 0x20 {
        PartsInverse1(x);
      } else if x & 0xE0 == 0x40 {
        PartsInverse2(x);
      } else if x & 0xE0 == 0x60 {
        PartsInverse3(x);
      } else if x & 0xE0 == 0x80 {
        PartsInverse4(x);
      } else if x & 0xE0 == 0xA0 {
        PartsInverse5(x);
      } else if x & 0xE0 == 0xC0 {
        PartsInverse6(x);
      } else {
        PartsInverse7(x);
      }
    }
  }

  lemma InverseOfZero()
    ensures Inverse(0) == 0
  {
  }
}
