/** Arithmetic in GF(2^8) modulo x^8 + x^4 + x^3 + x + 1. */
module AesField {

  /** Addition. */
  function Plus(a: bv8, b: bv8): bv8 {
    a ^ b
  }

  function Carry(a: bv8): bv8 {
    if a & 0x80 != 0 then 0x1b else 0
  }

  /** Multiplication by x. */
  function XTime(a: bv8): bv8 {
    (a << 1) ^ Carry(a)
  }

  function Bit(a: bv8, b: bv8): bv8 {
    if b & 1 != 0 then a else 0
  }

  function Half(b: bv8): bv8 {
    b >> 1
  }

  lemma HalfSmaller(b: bv8)
    requires b != 0
    ensures Half(b) < b
  {
  }

  /** Double-and-add multiplication. */
  function GMul(a: bv8, b: bv8): bv8
    decreases b
  {
    if b == 0 then 0
    else
      HalfSmaller(b);
      Plus(Bit(a, b), GMul(XTime(a), Half(b)))
  }

  method GMulLoop(a0: bv8, b0: bv8) returns (result: bv8)
    ensures result == GMul(a0, b0)
  {
    hide XTime, Plus, Bit, Half;
    result := 0;
    var a, b := a0, b0;
    PlusZero(GMul(a0, b0));
    while b != 0
      invariant GMul(a0, b0) == Plus(result, GMul(a, b))
      decreases b
    {
      PlusAssoc(result, Bit(a, b), GMul(XTime(a), Half(b)));
      HalfSmaller(b);
      result, a, b := Plus(result, Bit(a, b)), XTime(a), Half(b);
    }
    PlusZero(result);
  }

  // ----------------------------------------------------------------- laws of addition

  lemma PlusZero(x: bv8)
    ensures Plus(0, x) == x && Plus(x, 0) == x && Plus(x, x) == 0
  {
  }

  lemma PlusComm(a: bv8, b: bv8)
    ensures Plus(a, b) == Plus(b, a)
  {
  }

  lemma PlusAssoc(a: bv8, b: bv8, c: bv8)
    ensures Plus(Plus(a, b), c) == Plus(a, Plus(b, c))
  {
  }

  lemma PlusSwap(a: bv8, b: bv8, c: bv8, d: bv8)
    ensures Plus(Plus(a, b), Plus(c, d)) == Plus(Plus(a, c), Plus(b, d))
  {
    hide Plus;
    PlusAssoc(a, b, Plus(c, d));
    PlusAssoc(b, c, d);
    PlusComm(b, c);
    PlusAssoc(c, b, d);
    PlusAssoc(a, c, Plus(b, d));
  }

  function Sum(a: bv8, b: bv8, c: bv8, d: bv8): bv8 {
    Plus(Plus(Plus(a, b), c), d)
  }

  lemma SumSwap(a: bv8, b: bv8, c: bv8, d: bv8, e: bv8, f: bv8, g: bv8, h: bv8)
    ensures Plus(Sum(a, b, c, d), Sum(e, f, g, h)) == Sum(Plus(a, e), Plus(b, f), Plus(c, g), Plus(d, h))
  {
    hide Plus;
    PlusSwap(Plus(Plus(a, b), c), d, Plus(Plus(e, f), g), h);
    PlusSwap(Plus(a, b), c, Plus(e, f), g);
    PlusSwap(a, b, e, f);
  }

  // ----------------------------------------------------------- laws of multiplication

  lemma BitPlus(a: bv8, b: bv8, k: bv8)
    ensures Bit(Plus(a, b), k) == Plus(Bit(a, k), Bit(b, k))
  {
  }

  lemma ShiftXor(a: bv8, b: bv8)
    ensures (a ^ b) << 1 == (a << 1) ^ (b << 1)
  {
  }

  lemma CarryXor(a: bv8, b: bv8)
    ensures Carry(a ^ b) == Carry(a) ^ Carry(b)
  {
  }

  lemma XTimePlus(a: bv8, b: bv8)
    ensures XTime(Plus(a, b)) == Plus(XTime(a), XTime(b))
  {
    hide Carry;
    ShiftXor(a, b);
    CarryXor(a, b);
  }

  /** Multiplication distributes over addition, for every multiplier. */
  lemma {:induction false} GMulPlus(a: bv8, b: bv8, k: bv8)
    ensures GMul(Plus(a, b), k) == Plus(GMul(a, k), GMul(b, k))
    decreases k
  {
    hide Plus, XTime, Bit, Half;
    if k == 0 {
      PlusZero(0);
    } else {
      HalfSmaller(k);
      XTimePlus(a, b);
      BitPlus(a, b, k);
      GMulPlus(XTime(a), XTime(b), Half(k));
      PlusSwap(Bit(a, k), Bit(b, k), GMul(XTime(a), Half(k)), GMul(XTime(b), Half(k)));
    }
  }

  lemma GMulSum(a: bv8, b: bv8, c: bv8, d: bv8, k: bv8)
    ensures GMul(Sum(a, b, c, d), k) == Sum(GMul(a, k), GMul(b, k), GMul(c, k), GMul(d, k))
  {
    hide GMul, Plus;
    GMulPlus(Plus(Plus(a, b), c), d, k);
    GMulPlus(Plus(a, b), c, k);
    GMulPlus(a, b, k);
  }

  // ------------------------------------------------------------------ the multipliers

  lemma By1(a: bv8)
    ensures GMul(a, 1) == a
  {
    hide Plus, XTime;
    assert Half(1) == 0 && Bit(a, 1) == a;
    PlusZero(a);
  }

  lemma By2(a: bv8)
    ensures GMul(a, 2) == XTime(a)
  {
    hide Plus, XTime;
    assert Half(2) == 1 && Bit(a, 2) == 0;
    By1(XTime(a));
    PlusZero(XTime(a));
  }

  lemma By3(a: bv8)
    ensures GMul(a, 3) == Plus(a, XTime(a))
  {
    hide Plus, XTime;
    assert Half(3) == 1 && Bit(a, 3) == a;
    By1(XTime(a));
  }

  lemma By4(a: bv8)
    ensures GMul(a, 4) == XTime(XTime(a))
  {
    hide Plus, XTime;
    assert Half(4) == 2 && Bit(a, 4) == 0;
    By2(XTime(a));
    PlusZero(XTime(XTime(a)));
  }

  lemma By9(a: bv8)
    ensures GMul(a, 9) == Plus(a, XTime(XTime(XTime(a))))
  {
    hide Plus, XTime;
    assert Half(9) == 4 && Bit(a, 9) == a;
    By4(XTime(a));
  }

  lemma By5(a: bv8)
    ensures GMul(a, 5) == Plus(a, XTime(XTime(a)))
  {
    hide Plus, XTime;
    assert Half(5) == 2 && Bit(a, 5) == a;
    By2(XTime(a));
  }

  lemma By11(a: bv8)
    ensures GMul(a, 11) == Plus(a, Plus(XTime(a), XTime(XTime(XTime(a)))))
  {
    hide Plus, XTime;
    assert Half(11) == 5 && Bit(a, 11) == a;
    By5(XTime(a));
  }

  lemma By6(a: bv8)
    ensures GMul(a, 6) == Plus(XTime(a), XTime(XTime(a)))
  {
    hide Plus, XTime;
    assert Half(6) == 3 && Bit(a, 6) == 0;
    By3(XTime(a));
    PlusZero(Plus(XTime(a), XTime(XTime(a))));
  }

  lemma By13(a: bv8)
    ensures GMul(a, 13) == Plus(a, Plus(XTime(XTime(a)), XTime(XTime(XTime(a)))))
  {
    hide Plus, XTime;
    assert Half(13) == 6 && Bit(a, 13) == a;
    By6(XTime(a));
  }

  lemma By7(a: bv8)
    ensures GMul(a, 7) == Plus(a, Plus(XTime(a), XTime(XTime(a))))
  {
    hide Plus, XTime;
    assert Half(7) == 3 && Bit(a, 7) == a;
    By3(XTime(a));
  }

  lemma By14(a: bv8)
    ensures GMul(a, 14) == Plus(XTime(a), Plus(XTime(XTime(a)), XTime(XTime(XTime(a)))))
  {
    hide Plus, XTime;
    assert Half(14) == 7 && Bit(a, 14) == 0;
    By7(XTime(a));
    PlusZero(Plus(XTime(a), Plus(XTime(XTime(a)), XTime(XTime(XTime(a))))));
  }

  // ------------------------------------------- the products of the two column matrices

  lemma InverseCoefficient0(a: bv8)
    ensures Sum(GMul(GMul(a, 2), 14), GMul(a, 11), GMul(a, 13), GMul(GMul(a, 3), 9)) == a
  {
    hide GMul;
    By2(a);
    By14(GMul(a, 2));
    By11(a);
    By13(a);
    By3(a);
    By9(GMul(a, 3));
  }

  lemma InverseCoefficient1(a: bv8)
    ensures Sum(GMul(GMul(a, 3), 14), GMul(GMul(a, 2), 11), GMul(a, 13), GMul(a, 9)) == 0
  {
    hide GMul;
    By3(a);
    By14(GMul(a, 3));
    By2(a);
    By11(GMul(a, 2));
    By13(a);
    By9(a);
  }

  lemma InverseCoefficient2(a: bv8)
    ensures Sum(GMul(a, 14), GMul(GMul(a, 3), 11), GMul(GMul(a, 2), 13), GMul(a, 9)) == 0
  {
    hide GMul;
    By14(a);
    By3(a);
    By11(GMul(a, 3));
    By2(a);
    By13(GMul(a, 2));
    By9(a);
  }

  lemma InverseCoefficient3(a: bv8)
    ensures Sum(GMul(a, 14), GMul(a, 11), GMul(GMul(a, 3), 13), GMul(GMul(a, 2), 9)) == 0
  {
    hide GMul;
    By14(a);
    By11(a);
    By3(a);
    By13(GMul(a, 3));
    By2(a);
    By9(GMul(a, 2));
  }

  lemma ForwardCoefficient0(a: bv8)
    ensures Sum(GMul(GMul(a, 14), 2), GMul(GMul(a, 9), 3), GMul(a, 13), GMul(a, 11)) == a
  {
    hide GMul;
    By14(a);
    By2(GMul(a, 14));
    By9(a);
    By3(GMul(a, 9));
    By13(a);
    By11(a);
  }

  lemma ForwardCoefficient1(a: bv8)
    ensures Sum(GMul(GMul(a, 11), 2), GMul(GMul(a, 14), 3), GMul(a, 9), GMul(a, 13)) == 0
  {
    hide GMul;
    By11(a);
    By2(GMul(a, 11));
    By14(a);
    By3(GMul(a, 14));
    By9(a);
    By13(a);
  }

  lemma ForwardCoefficient2(a: bv8)
    ensures Sum(GMul(GMul(a, 13), 2), GMul(GMul(a, 11), 3), GMul(a, 14), GMul(a, 9)) == 0
  {
    hide GMul;
    By13(a);
    By2(GMul(a, 13));
    By11(a);
    By3(GMul(a, 11));
    By14(a);
    By9(a);
  }

  lemma ForwardCoefficient3(a: bv8)
    ensures Sum(GMul(GMul(a, 9), 2), GMul(GMul(a, 13), 3), GMul(a, 11), GMul(a, 14)) == 0
  {
    hide GMul;
    By9(a);
    By2(GMul(a, 9));
    By13(a);
    By3(GMul(a, 13));
    By11(a);
    By14(a);
  }

  // -------------------------------------------------------------------- columns undone

  /** One byte of a mixed column, from the byte of its row on downwards. */
  function Mix(a: bv8, b: bv8, c: bv8, d: bv8): bv8 {
    Sum(GMul(a, 2), GMul(b, 3), c, d)
  }

  function InvMix(a: bv8, b: bv8, c: bv8, d: bv8): bv8 {
    Sum(GMul(a, 14), GMul(b, 11), GMul(c, 13), GMul(d, 9))
  }

  lemma SumRotate(a: bv8, b: bv8, c: bv8, d: bv8)
    ensures Sum(a, b, c, d) == Sum(d, a, b, c)
  {
    hide Plus;
    PlusComm(Plus(Plus(a, b), c), d);
    PlusAssoc(d, Plus(a, b), c);
    PlusAssoc(d, a, b);
  }

  /** The sum of four rows, column by column. */
  lemma SumTranspose(a0: bv8, a1: bv8, a2: bv8, a3: bv8, b0: bv8, b1: bv8, b2: bv8, b3: bv8,
                     c0: bv8, c1: bv8, c2: bv8, c3: bv8, d0: bv8, d1: bv8, d2: bv8, d3: bv8)
    ensures Sum(Sum(a0, a1, a2, a3), Sum(b0, b1, b2, b3), Sum(c0, c1, c2, c3), Sum(d0, d1, d2, d3))
         == Sum(Sum(a0, b0, c0, d0), Sum(a1, b1, c1, d1), Sum(a2, b2, c2, d2), Sum(a3, b3, c3, d3))
  {
    hide Plus;
    SumSwap(a0, a1, a2, a3, b0, b1, b2, b3);
    SumSwap(Plus(a0, b0), Plus(a1, b1), Plus(a2, b2), Plus(a3, b3), c0, c1, c2, c3);
    SumSwap(Plus(Plus(a0, b0), c0), Plus(Plus(a1, b1), c1), Plus(Plus(a2, b2), c2), Plus(Plus(a3, b3), c3), d0, d1, d2, d3);
  }

  lemma OneLeft(x: bv8)
    ensures Sum(x, 0, 0, 0) == x
  {
    hide Plus;
    PlusZero(x);
  }

  /** The inverse matrix undoes the column mixing. */
  lemma InvMixMix(x0: bv8, x1: bv8, x2: bv8, x3: bv8)
    ensures InvMix(Mix(x0, x1, x2, x3), Mix(x1, x2, x3, x0), Mix(x2, x3, x0, x1), Mix(x3, x0, x1, x2)) == x0
  {
    hide GMul, Sum;
    GMulSum(GMul(x0, 2), GMul(x1, 3), x2, x3, 14);
    GMulSum(GMul(x1, 2), GMul(x2, 3), x3, x0, 11);
    GMulSum(GMul(x2, 2), GMul(x3, 3), x0, x1, 13);
    GMulSum(GMul(x3, 2), GMul(x0, 3), x1, x2, 9);
    var a0, a1, a2, a3 := GMul(GMul(x0, 2), 14), GMul(GMul(x1, 3), 14), GMul(x2, 14), GMul(x3, 14);
    var b0, b1, b2, b3 := GMul(x0, 11), GMul(GMul(x1, 2), 11), GMul(GMul(x2, 3), 11), GMul(x3, 11);
    var c0, c1, c2, c3 := GMul(x0, 13), GMul(x1, 13), GMul(GMul(x2, 2), 13), GMul(GMul(x3, 3), 13);
    var d0, d1, d2, d3 := GMul(GMul(x0, 3), 9), GMul(x1, 9), GMul(x2, 9), GMul(GMul(x3, 2), 9);
    SumRotate(b1, b2, b3, b0);
    SumRotate(c2, c3, c0, c1);
    SumRotate(c1, c2, c3, c0);
    SumRotate(d0, d1, d2, d3);
    SumTranspose(a0, a1, a2, a3, b0, b1, b2, b3, c0, c1, c2, c3, d0, d1, d2, d3);
    InverseCoefficient0(x0);
    InverseCoefficient1(x1);
    InverseCoefficient2(x2);
    InverseCoefficient3(x3);
    OneLeft(x0);
  }

  lemma MixInvMix(x0: bv8, x1: bv8, x2: bv8, x3: bv8)
    ensures Mix(InvMix(x0, x1, x2, x3), InvMix(x1, x2, x3, x0), InvMix(x2, x3, x0, x1), InvMix(x3, x0, x1, x2)) == x0
  {
    hide GMul, Sum;
    GMulSum(GMul(x0, 14), GMul(x1, 11), GMul(x2, 13), GMul(x3, 9), 2);
    GMulSum(GMul(x1, 14), GMul(x2, 11), GMul(x3, 13), GMul(x0, 9), 3);
    var a0, a1, a2, a3 := GMul(GMul(x0, 14), 2), GMul(GMul(x1, 11), 2), GMul(GMul(x2, 13), 2), GMul(GMul(x3, 9), 2);
    var b0, b1, b2, b3 := GMul(GMul(x0, 9), 3), GMul(GMul(x1, 14), 3), GMul(GMul(x2, 11), 3), GMul(GMul(x3, 13), 3);
    var c0, c1, c2, c3 := GMul(x0, 13), GMul(x1, 9), GMul(x2, 14), GMul(x3, 11);
    var d0, d1, d2, d3 := GMul(x0, 11), GMul(x1, 13), GMul(x2, 9), GMul(x3, 14);
    SumRotate(b1, b2, b3, b0);
    SumRotate(c2, c3, c0, c1);
    SumRotate(c1, c2, c3, c0);
    SumRotate(d0, d1, d2, d3);
    SumTranspose(a0, a1, a2, a3, b0, b1, b2, b3, c0, c1, c2, c3, d0, d1, d2, d3);
    ForwardCoefficient0(x0);
    ForwardCoefficient1(x1);
    ForwardCoefficient2(x2);
    ForwardCoefficient3(x3);
    OneLeft(x0);
  }
}
