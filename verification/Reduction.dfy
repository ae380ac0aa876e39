/**
 What the table product is, said without its rounds: the product of two bytes as polynomials over the
 two-element field, without carries, reduced by x^8 + x^4 + x^3 + x^2 + 1.
 */
module Reduction {
  import opened GaloisField

  /** The polynomial, written as 0x11D. */
  const POLYNOMIAL: bv16 := 0x011D

  function Xor(x: bv16, y: bv16): bv16 { x ^ y }

  /** a if the lowest bit of b is set, and zero otherwise. */
  function Pick(b: Byte, a: bv16): bv16 {
    if b & 1 == 1 then a else 0
  }

  /** The carry-less product: one shifted copy of a for every bit of b, with no reduction. The result
      is exact as long as it fits 16 bits, as it does for bytes and for POLYNOMIAL times b < 128. */
  function Carryless(a: bv16, b: Byte): bv16
    decreases b
  {
    if b == 0 then 0 else Xor(Pick(b, a), Carryless(a << 1, b >> 1))
  }

  // ----- sums -----

  lemma XorCommutes(p: bv16, q: bv16)
    ensures Xor(p, q) == Xor(q, p)
  {
  }

  lemma XorAssociates(p: bv16, q: bv16, r: bv16)
    ensures Xor(Xor(p, q), r) == Xor(p, Xor(q, r))
  {
  }

  lemma XorZeroSelf(p: bv16)
    ensures Xor(p, 0) == p == Xor(0, p)
    ensures Xor(p, p) == 0
  {
  }

  lemma XorSwap(p: bv16, q: bv16, r: bv16, s: bv16)
    ensures Xor(Xor(p, q), Xor(r, s)) == Xor(Xor(p, r), Xor(q, s))
  {
    hide Xor;
    XorAssociates(p, q, Xor(r, s));
    XorAssociates(q, r, s);
    XorCommutes(q, r);
    XorAssociates(r, q, s);
    XorAssociates(p, r, Xor(q, s));
  }

  lemma PickAddsLeft(b: Byte, a: bv16, a': bv16)
    ensures Pick(b, Xor(a, a')) == Xor(Pick(b, a), Pick(b, a'))
  {
    hide Xor;
    XorZeroSelf(0);
  }

  lemma LowestBit(b: Byte, b': Byte)
    ensures (b ^ b') & 1 == 1 <==> (b & 1 == 1 <==> b' & 1 != 1)
  {
    assert (b ^ b') & 1 == (b & 1) ^ (b' & 1);
  }

  lemma PickAddsRight(b: Byte, b': Byte, a: bv16)
    ensures Pick(b ^ b', a) == Xor(Pick(b, a), Pick(b', a))
  {
    hide Xor;
    LowestBit(b, b');
    XorZeroSelf(a);
    XorZeroSelf(0);
  }

  lemma WideShiftAdds(a: bv16, a': bv16)
    ensures Xor(a, a') << 1 == Xor(a << 1, a' << 1)
  {
  }

  lemma ShiftAdds(b: Byte, b': Byte)
    ensures (b ^ b') >> 1 == (b >> 1) ^ (b' >> 1)
  {
  }

  /** One round of the product takes the lowest bit of b. */
  lemma CarrylessRound(a: bv16, b: Byte)
    ensures Carryless(a, b) == Xor(Pick(b, a), Carryless(a << 1, b >> 1))
  {
    hide Xor;
    XorZeroSelf(0);
    assert (0 as Byte) >> 1 == 0;
  }

  lemma CarrylessNothing(a: bv16)
    ensures Carryless(a, 0) == 0
  {
  }

  lemma {:induction false} CarrylessOfNothing(b: Byte)
    ensures Carryless(0, b) == 0
    decreases b
  {
    hide Xor;
    XorZeroSelf(0);
    assert (0 as bv16) << 1 == 0;
    if b != 0 { CarrylessOfNothing(b >> 1); }
  }

  lemma {:induction false} CarrylessAddsLeft(a: bv16, a': bv16, b: Byte)
    ensures Carryless(Xor(a, a'), b) == Xor(Carryless(a, b), Carryless(a', b))
    decreases b
  {
    hide Xor, Pick;
    if b == 0 {
      XorZeroSelf(0);
    } else {
      WideShiftAdds(a, a');
      CarrylessAddsLeft(a << 1, a' << 1, b >> 1);
      PickAddsLeft(b, a, a');
      XorSwap(Pick(b, a), Pick(b, a'), Carryless(a << 1, b >> 1), Carryless(a' << 1, b >> 1));
    }
  }

  lemma HalvesShrink(b: Byte, b': Byte)
    requires b | b' != 0
    ensures (b >> 1) | (b' >> 1) < b | b'
  {
    assert (b >> 1) | (b' >> 1) == (b | b') >> 1;
  }

  lemma NothingAtAll(b: Byte, b': Byte)
    requires b | b' == 0
    ensures b == 0 && b' == 0 && b ^ b' == 0
  {
  }

  lemma NothingAddsRight(a: bv16)
    ensures Carryless(a, 0) == Xor(Carryless(a, 0), Carryless(a, 0))
  {
  }

  lemma {:induction false} CarrylessAddsRight(a: bv16, b: Byte, b': Byte)
    ensures Carryless(a, b ^ b') == Xor(Carryless(a, b), Carryless(a, b'))
    decreases b | b'
  {
    hide Xor, Pick, Carryless;
    if b | b' == 0 {
      NothingAtAll(b, b');
      NothingAddsRight(a);
    } else {
      CarrylessRound(a, b);
      CarrylessRound(a, b');
      CarrylessRound(a, b ^ b');
      HalvesShrink(b, b');
      ShiftAdds(b, b');
      CarrylessAddsRight(a << 1, b >> 1, b' >> 1);
      PickAddsRight(b, b', a);
      XorSwap(Pick(b, a), Pick(b', a), Carryless(a << 1, b >> 1), Carryless(a << 1, b' >> 1));
    }
  }

  // ----- the table product is the carry-less product, reduced -----

  /** One multiplication by x reduces by the polynomial when a bit is shifted out. */
  lemma XtimeReduces(a: Byte)
    ensures Xtime(a) as bv16 == Xor((a as bv16) << 1, Overflow(a))
  {
  }

  function Overflow(a: Byte): bv16 {
    if a & 0x80 != 0 then POLYNOMIAL else 0
  }

  function Wide(x: Byte): bv16 { x as bv16 }

  lemma WideSelect(a: Byte, b: Byte)
    ensures Wide(Select(b, a)) == Pick(b, Wide(a))
  {
  }

  lemma WideAdd(x: Byte, y: Byte)
    ensures Wide(Add(x, y)) == Xor(Wide(x), Wide(y))
  {
  }

  /** The quotient that the rounds of the product leave behind. */
  function Quotient(a: Byte, b: Byte): Byte
    decreases b
  {
    if b == 0 then 0 else Quotient(Xtime(a), b >> 1) ^ (if a & 0x80 != 0 then b >> 1 else 0)
  }

  lemma {:induction false} QuotientSmall(a: Byte, b: Byte)
    ensures Quotient(a, b) < 128
    decreases b
  {
    hide Xtime;
    if b != 0 {
      QuotientSmall(Xtime(a), b >> 1);
      HalfSmall(Quotient(Xtime(a), b >> 1), b);
    }
  }

  lemma HalfSmall(r: Byte, b: Byte)
    requires r < 128
    ensures r ^ (b >> 1) < 128 && r ^ 0 < 128
  {
  }

  lemma {:induction false} ProductAndQuotient(a: Byte, b: Byte)
    ensures Xor(Wide(Mul(a, b)), Carryless(Wide(a), b)) == Carryless(POLYNOMIAL, Quotient(a, b))
    decreases b
  {
    hide Xor, Pick, Carryless, Mul, Xtime, Select, Add, Wide, Quotient;
    if b == 0 {
      ProductOfNothing(a);
    } else {
      ProductAndQuotient(Xtime(a), b >> 1);
      ProductRound(a, b);
    }
  }

  lemma ProductOfNothing(a: Byte)
    ensures Xor(Wide(Mul(a, 0)), Carryless(Wide(a), 0)) == Carryless(POLYNOMIAL, Quotient(a, 0))
  {
  }

  lemma MulUnfold(a: Byte, b: Byte)
    requires b != 0
    ensures Wide(Mul(a, b)) == Xor(Pick(b, Wide(a)), Wide(Mul(Xtime(a), b >> 1)))
  {
    hide Xor, Pick, Select, Xtime, Add, Wide;
    WideAdd(Select(b, a), Mul(Xtime(a), b >> 1));
    WideSelect(a, b);
  }

  lemma OverflowRound(a: Byte, b: Byte)
    requires b != 0
    ensures Carryless(POLYNOMIAL, Quotient(a, b))
         == Xor(Carryless(POLYNOMIAL, Quotient(Xtime(a), b >> 1)), Carryless(Overflow(a), b >> 1))
  {
    hide Xor, Carryless, Xtime;
    CarrylessAddsRight(POLYNOMIAL, Quotient(Xtime(a), b >> 1), if a & 0x80 != 0 then b >> 1 else 0);
    CarrylessOfNothing(b >> 1);
    CarrylessNothing(POLYNOMIAL);
  }

  lemma ProductRound(a: Byte, b: Byte)
    requires b != 0
    requires Xor(Wide(Mul(Xtime(a), b >> 1)), Carryless(Wide(Xtime(a)), b >> 1))
          == Carryless(POLYNOMIAL, Quotient(Xtime(a), b >> 1))
    ensures Xor(Wide(Mul(a, b)), Carryless(Wide(a), b)) == Carryless(POLYNOMIAL, Quotient(a, b))
  {
    hide Xor, Pick, Carryless, Mul, Xtime, Quotient, Overflow;
    var half := b >> 1;
    MulUnfold(a, b);
    CarrylessRound(Wide(a), b);
    OverflowRound(a, b);
    XtimeReduces(a);
    CarrylessAddsLeft(Wide(a) << 1, Overflow(a), half);
    Regroup(Pick(b, Wide(a)), Wide(Mul(Xtime(a), half)), Carryless(Wide(a) << 1, half), Carryless(Overflow(a), half));
  }

  lemma Regroup(p: bv16, m: bv16, s: bv16, t: bv16)
    ensures Xor(Xor(p, m), Xor(p, s)) == Xor(Xor(m, Xor(s, t)), t)
  {
    hide Xor;
    XorSwap(p, m, p, s);
    XorZeroSelf(p);
    XorZeroSelf(t);
    XorZeroSelf(Xor(m, s));
    XorAssociates(m, s, t);
    XorAssociates(Xor(m, s), t, t);
  }

  /** Dividing the carry-less product of a and b by the polynomial gives quotient q and remainder r. */
  predicate Divides(a: Byte, b: Byte, q: Byte, r: Byte) {
    q < 128 && (r as bv16) ^ Carryless(a as bv16, b) == Carryless(POLYNOMIAL, q)
  }

  lemma DividesWide(a: Byte, b: Byte, q: Byte, r: Byte)
    ensures Divides(a, b, q, r) <==> q < 128 && Xor(Wide(r), Carryless(Wide(a), b)) == Carryless(POLYNOMIAL, q)
  {
    hide Carryless;
  }

  /** The product is a remainder of the carry-less product. */
  lemma MulIsReduction(a: Byte, b: Byte)
    ensures Divides(a, b, Quotient(a, b), Mul(a, b))
  {
    hide Carryless, Mul, Quotient, Divides, Xor, Wide;
    ProductAndQuotient(a, b);
    QuotientSmall(a, b);
    DividesWide(a, b, Quotient(a, b), Mul(a, b));
  }

  // ----- there is only one remainder -----

  function Term(a: bv16, b: Byte, bit: Byte): bv16 {
    if b & bit != 0 then a else 0
  }

  lemma PickBits(b: Byte, a0: bv16, a1: bv16, a2: bv16, a3: bv16, a4: bv16, a5: bv16, a6: bv16)
    requires b < 128
    ensures Pick(b, a0) == Term(a0, b, 1)
    ensures Pick(b >> 1, a1) == Term(a1, b, 2)
    ensures Pick(b >> 1 >> 1, a2) == Term(a2, b, 4)
    ensures Pick(b >> 1 >> 1 >> 1, a3) == Term(a3, b, 8)
    ensures Pick(b >> 1 >> 1 >> 1 >> 1, a4) == Term(a4, b, 16)
    ensures Pick(b >> 1 >> 1 >> 1 >> 1 >> 1, a5) == Term(a5, b, 32)
    ensures Pick(b >> 1 >> 1 >> 1 >> 1 >> 1 >> 1, a6) == Term(a6, b, 64)
    ensures b >> 1 >> 1 >> 1 >> 1 >> 1 >> 1 >> 1 == 0
  {
  }

  function Multiple(q: Byte): bv16 {
    Xor(Term(0x11D, q, 1), Xor(Term(0x23A, q, 2), Xor(Term(0x474, q, 4), Xor(Term(0x8E8, q, 8),
      Xor(Term(0x11D0, q, 16), Xor(Term(0x23A0, q, 32), Term(0x4740, q, 64)))))))
  }

  lemma Shifts()
    ensures (0x11D as bv16) << 1 == 0x23A && (0x23A as bv16) << 1 == 0x474 && (0x474 as bv16) << 1 == 0x8E8
    ensures (0x8E8 as bv16) << 1 == 0x11D0 && (0x11D0 as bv16) << 1 == 0x23A0 && (0x23A0 as bv16) << 1 == 0x4740
  {
  }

  lemma MultipleFlat(q: Byte)
    requires q < 128
    ensures Carryless(POLYNOMIAL, q) == Multiple(q)
  {
    hide Xor, Pick, Carryless, Term;
    PickBits(q, 0x11D, 0x23A, 0x474, 0x8E8, 0x11D0, 0x23A0, 0x4740);
    Shifts();
    CarrylessRound(0x11D, q);
    CarrylessRound(0x23A, q >> 1);
    CarrylessRound(0x474, q >> 1 >> 1);
    CarrylessRound(0x8E8, q >> 1 >> 1 >> 1);
    CarrylessRound(0x11D0, q >> 1 >> 1 >> 1 >> 1);
    CarrylessRound(0x23A0, q >> 1 >> 1 >> 1 >> 1 >> 1);
    CarrylessRound(0x4740, q >> 1 >> 1 >> 1 >> 1 >> 1 >> 1);
    CarrylessNothing((0x4740 as bv16) << 1);
    XorZeroSelf(Term(0x4740, q, 64));
  }

  lemma MultipleLarge(q: Byte)
    requires q < 128 && q != 0
    ensures Multiple(q) >= 256
  {
  }

  lemma NoOtherRemainder(r: Byte, r': Byte, c: bv16, q: Byte, q': Byte)
    requires q < 128 && q' < 128
    requires Xor(Wide(r), c) == Carryless(POLYNOMIAL, q) && Xor(Wide(r'), c) == Carryless(POLYNOMIAL, q')
    ensures r == r'
  {
    hide Xor, Wide, Carryless;
    CarrylessAddsRight(POLYNOMIAL, q, q');
    XorSwap(Wide(r), c, Wide(r'), c);
    XorZeroSelf(c);
    XorZeroSelf(Xor(Wide(r), Wide(r')));
    SmallSum(q, q');
    WideSum(r, r');
    if q ^ q' != 0 {
      MultipleLarge(q ^ q');
      MultipleFlat(q ^ q');
    } else {
      CarrylessNothing(POLYNOMIAL);
    }
  }

  lemma SmallSum(q: Byte, q': Byte)
    requires q < 128 && q' < 128
    ensures q ^ q' < 128
  {
  }

  lemma WideSum(r: Byte, r': Byte)
    ensures Xor(Wide(r), Wide(r')) < 256 && (Xor(Wide(r), Wide(r')) == 0 <==> r == r')
  {
  }

  /** The table product of two bytes is the remainder of their carry-less product, and nothing else is:
      the one byte that differs from it by a multiple of the polynomial. */
  lemma MulIsRemainder(a: Byte, b: Byte, r: Byte)
    ensures r == MulElem(a, b) <==> exists q: Byte :: Divides(a, b, q, r)
  {
    hide Carryless, Mul, Divides, Quotient, Xor, Wide;
    MulIsReduction(a, b);
    if q: Byte :| Divides(a, b, q, r) {
      DividesWide(a, b, q, r);
      DividesWide(a, b, Quotient(a, b), Mul(a, b));
      NoOtherRemainder(r, Mul(a, b), Carryless(Wide(a), b), q, Quotient(a, b));
    }
  }

  /** The row of the table for 2: twice the byte, and 29 on top when a bit is shifted out. */
  lemma TableDoubles(b: Byte)
    ensures MulElem(2, b) == (b << 1) ^ (if b & 0x80 != 0 then 29 else 0)
    ensures MulElem(2, 128) == 29
  {
    hide Mul;
    DoubleIsXtime(b);
    DoubleIsXtime(128);
    assert (128 as Byte) << 1 == 0;
  }

  lemma DoubleIsXtime(b: Byte)
    ensures Mul(2, b) == Xtime(b)
  {
    hide Mul;
    MulXtimeLeft(1, b);
    MulOneLeft(b);
    assert Xtime(1) == 2;
  }
}
