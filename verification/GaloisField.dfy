/**
 The field GF(2^8) behind the erasure code: bytes, addition by exclusive or, and
 multiplication by shift-and-reduce with the polynomial x^8 + x^4 + x^3 + x^2 + 1 (0x11D).
 The main results are the field laws and the meaning of the two lookup tables.
 */
module GaloisField {

  type Byte = bv8

  function Add(x: Byte, y: Byte): Byte { x ^ y }

  /** Multiplication by the element x (that is, 2): shift left, reduce on overflow. */
  function Xtime(a: Byte): Byte {
    (a << 1) ^ (if a & 0x80 != 0 then 0x1D else 0)
  }

  /** a if the lowest bit of b is set, and zero otherwise. */
  function Select(b: Byte, a: Byte): Byte {
    if b & 1 == 1 then a else 0
  }

  /** The shift-and-reduce product: one addend per set bit of b. */
  function Mul(a: Byte, b: Byte): Byte
    decreases b
  {
    if b == 0 then 0 else Add(Select(b, a), Mul(Xtime(a), b >> 1))
  }

  // ----- addition -----

  lemma AddCommutes(a: Byte, b: Byte)
    ensures Add(a, b) == Add(b, a)
  {
  }

  lemma AddAssociates(a: Byte, b: Byte, c: Byte)
    ensures Add(Add(a, b), c) == Add(a, Add(b, c))
  {
  }

  /** Zero is neutral and every byte is its own negative. */
  lemma AddZeroSelf(a: Byte)
    ensures Add(a, 0) == a == Add(0, a)
    ensures Add(a, a) == 0
  {
  }

  /** A sum is zero only when the addends agree. */
  lemma AddZeroEqual(a: Byte, b: Byte)
    ensures Add(a, b) == 0 <==> a == b
  {
  }

  /** Exchanges the two middle addends. */
  lemma AddSwap(a: Byte, b: Byte, c: Byte, d: Byte)
    ensures Add(Add(a, b), Add(c, d)) == Add(Add(a, c), Add(b, d))
  {
    hide Add;
    AddAssociates(a, b, Add(c, d));
    AddAssociates(b, c, d);
    AddCommutes(b, c);
    AddAssociates(c, b, d);
    AddAssociates(a, c, Add(b, d));
  }

  // ----- multiplication by x -----

  /** What a bit shifted out at the top reduces to. */
  function Carry(a: Byte): Byte {
    if a & 0x80 != 0 then 0x1D else 0
  }

  lemma CarryLinear(a: Byte, b: Byte)
    ensures Carry(a ^ b) == Carry(a) ^ Carry(b)
  {
    assert (a ^ b) & 0x80 == (a & 0x80) ^ (b & 0x80);
  }

  lemma XtimeParts(a: Byte)
    ensures Xtime(a) == Add(a << 1, Carry(a))
  {
  }

  lemma XtimeLinear(a: Byte, b: Byte)
    ensures Xtime(Add(a, b)) == Add(Xtime(a), Xtime(b))
  {
    hide Xtime;
    XtimeParts(a);
    XtimeParts(b);
    XtimeParts(Add(a, b));
    CarryLinear(a, b);
    assert (a ^ b) << 1 == (a << 1) ^ (b << 1);
    AddSwap(a << 1, Carry(a), b << 1, Carry(b));
  }

  // ----- the product is linear in each argument, commutative and associative -----

  lemma {:induction false} MulZeroLeft(b: Byte)
    ensures Mul(0, b) == 0
    decreases b
  {
    if b != 0 { MulZeroLeft(b >> 1); }
  }

  lemma {:induction false} MulXtimeLeft(a: Byte, b: Byte)
    ensures Mul(Xtime(a), b) == Xtime(Mul(a, b))
    decreases b
  {
    if b != 0 {
      MulXtimeLeft(Xtime(a), b >> 1);
      XtimeLinear(Select(b, a), Mul(Xtime(a), b >> 1));
    }
  }

  /** The product by Horner's rule on the bits of b. */
  lemma MulHorner(a: Byte, b: Byte)
    ensures Mul(a, b) == Add(Select(b, a), Xtime(Mul(a, b >> 1)))
  {
    if b != 0 { MulXtimeLeft(a, b >> 1); }
  }

  lemma {:induction false} MulAddLeft(a: Byte, a': Byte, b: Byte)
    ensures Mul(Add(a, a'), b) == Add(Mul(a, b), Mul(a', b))
    decreases b
  {
    if b != 0 {
      var c := b >> 1;
      calc {
        Mul(Add(a, a'), b);
        Add(Select(b, Add(a, a')), Mul(Xtime(Add(a, a')), c));
        { XtimeLinear(a, a'); MulAddLeft(Xtime(a), Xtime(a'), c); SelectAdd(b, a, a'); }
        Add(Add(Select(b, a), Select(b, a')), Add(Mul(Xtime(a), c), Mul(Xtime(a'), c)));
        { AddSwap(Select(b, a), Select(b, a'), Mul(Xtime(a), c), Mul(Xtime(a'), c)); }
        Add(Mul(a, b), Mul(a', b));
      }
    }
  }

  lemma SelectAdd(b: Byte, a: Byte, a': Byte)
    ensures Select(b, Add(a, a')) == Add(Select(b, a), Select(b, a'))
  {
  }

  /** Every byte is its lowest bit plus Xtime of the rest. */
  lemma BitsHorner(b: Byte)
    ensures b == Add(Select(b, 1), Xtime(b >> 1))
  {
  }

  lemma {:induction false} MulOneLeft(b: Byte)
    ensures Mul(1, b) == b
    decreases b
  {
    if b != 0 {
      MulHorner(1, b);
      MulOneLeft(b >> 1);
      BitsHorner(b);
    }
  }

  lemma MulSelectLeft(b: Byte, a: Byte)
    ensures Mul(Select(b, 1), a) == Select(b, a)
  {
    MulZeroLeft(a);
    MulOneLeft(a);
  }

  lemma {:induction false} MulCommutes(a: Byte, b: Byte)
    ensures Mul(a, b) == Mul(b, a)
    decreases b
  {
    if b == 0 {
      MulZeroLeft(a);
    } else {
      var c := b >> 1;
      calc {
        Mul(a, b);
        { MulHorner(a, b); }
        Add(Select(b, a), Xtime(Mul(a, c)));
        { MulCommutes(a, c); MulXtimeLeft(c, a); MulSelectLeft(b, a); }
        Add(Mul(Select(b, 1), a), Mul(Xtime(c), a));
        { MulAddLeft(Select(b, 1), Xtime(c), a); }
        Mul(Add(Select(b, 1), Xtime(c)), a);
        { BitsHorner(b); }
        Mul(b, a);
      }
    }
  }

  lemma MulAddRight(a: Byte, b: Byte, b': Byte)
    ensures Mul(a, Add(b, b')) == Add(Mul(a, b), Mul(a, b'))
  {
    MulCommutes(a, Add(b, b'));
    MulAddLeft(b, b', a);
    MulCommutes(a, b);
    MulCommutes(a, b');
  }

  lemma MulXtimeRight(a: Byte, b: Byte)
    ensures Mul(a, Xtime(b)) == Xtime(Mul(a, b))
  {
    MulCommutes(a, Xtime(b));
    MulXtimeLeft(b, a);
    MulCommutes(a, b);
  }

  lemma {:induction false} MulAssociates(a: Byte, b: Byte, c: Byte)
    ensures Mul(Mul(a, b), c) == Mul(a, Mul(b, c))
    decreases c
  {
    if c == 0 {
    } else {
      var d := c >> 1;
      calc {
        Mul(Mul(a, b), c);
        { MulHorner(Mul(a, b), c); MulAssociates(a, b, d); }
        Add(Select(c, Mul(a, b)), Xtime(Mul(a, Mul(b, d))));
        { MulXtimeRight(a, Mul(b, d)); assert Select(c, Mul(a, b)) == Mul(a, Select(c, b)); }
        Add(Mul(a, Select(c, b)), Mul(a, Xtime(Mul(b, d))));
        { MulAddRight(a, Select(c, b), Xtime(Mul(b, d))); }
        Mul(a, Add(Select(c, b), Xtime(Mul(b, d))));
        { MulHorner(b, c); }
        Mul(a, Mul(b, c));
      }
    }
  }

  // ----- inverses -----

  /** The product with all eight rounds written out. */
  function MulFlat(a: Byte, b: Byte): Byte {
    var a1 := Xtime(a);
    var a2 := Xtime(a1);
    var a3 := Xtime(a2);
    var a4 := Xtime(a3);
    var a5 := Xtime(a4);
    var a6 := Xtime(a5);
    var a7 := Xtime(a6);
    Xor8(if b & 1 != 0 then a else 0, if b & 2 != 0 then a1 else 0, if b & 4 != 0 then a2 else 0,
         if b & 8 != 0 then a3 else 0, if b & 16 != 0 then a4 else 0, if b & 32 != 0 then a5 else 0,
         if b & 64 != 0 then a6 else 0, if b & 128 != 0 then a7 else 0)
  }

  function Xor8(x0: Byte, x1: Byte, x2: Byte, x3: Byte, x4: Byte, x5: Byte, x6: Byte, x7: Byte): Byte {
    Add(x0, Add(x1, Add(x2, Add(x3, Add(x4, Add(x5, Add(x6, x7)))))))
  }

  lemma MulIsMulFlat(a: Byte, b: Byte)
    ensures Mul(a, b) == MulFlat(a, b)
  {
    hide Add, Xtime, Mul, Select, Xor8;
    var a4 := Xtime(Xtime(Xtime(Xtime(a))));
    SelectBits(b, a, Xtime(a), Xtime(Xtime(a)), Xtime(Xtime(Xtime(a))),
      a4, Xtime(a4), Xtime(Xtime(a4)), Xtime(Xtime(Xtime(a4))));
    MulRounds(a, b);
  }

  /** Eight rounds of the product. */
  lemma MulRounds(a: Byte, b: Byte)
    ensures
    var (a1, b1) := (Xtime(a), b >> 1);
    var (a2, b2) := (Xtime(a1), b1 >> 1);
    var (a3, b3) := (Xtime(a2), b2 >> 1);
    var (a4, b4) := (Xtime(a3), b3 >> 1);
    var (a5, b5) := (Xtime(a4), b4 >> 1);
    var (a6, b6) := (Xtime(a5), b5 >> 1);
    var (a7, b7) := (Xtime(a6), b6 >> 1);
      Mul(a, b) == Xor8(Select(b, a), Select(b1, a1), Select(b2, a2), Select(b3, a3),
                        Select(b4, a4), Select(b5, a5), Select(b6, a6), Select(b7, a7))
  {
    hide Add, Xtime, Mul, Select;
    var (a1, b1) := (Xtime(a), b >> 1);
    var (a2, b2) := (Xtime(a1), b1 >> 1);
    var (a3, b3) := (Xtime(a2), b2 >> 1);
    var (a4, b4) := (Xtime(a3), b3 >> 1);
    var (a5, b5) := (Xtime(a4), b4 >> 1);
    var (a6, b6) := (Xtime(a5), b5 >> 1);
    var (a7, b7) := (Xtime(a6), b6 >> 1);
    MulRound(a, b);
    MulRound(a1, b1);
    MulRound(a2, b2);
    MulRound(a3, b3);
    MulRound(a4, b4);
    MulRound(a5, b5);
    MulRound(a6, b6);
    SelectBits(b, a, a1, a2, a3, a4, a5, a6, a7);
    MulLastRound(a7, b7);
  }

  lemma MulRound(a: Byte, b: Byte)
    ensures Mul(a, b) == Add(Select(b, a), Mul(Xtime(a), b >> 1))
  {
  }

  lemma MulLastRound(a: Byte, b: Byte)
    requires b >> 1 == 0
    ensures Mul(a, b) == Select(b, a)
  {
    AddZeroSelf(Select(b, a));
  }

  lemma SelectBits(b: Byte, a0: Byte, a1: Byte, a2: Byte, a3: Byte, a4: Byte, a5: Byte, a6: Byte, a7: Byte)
    ensures Select(b, a0) == if b & 1 != 0 then a0 else 0
    ensures Select(b >> 1, a1) == if b & 2 != 0 then a1 else 0
    ensures Select(b >> 1 >> 1, a2) == if b & 4 != 0 then a2 else 0
    ensures Select(b >> 1 >> 1 >> 1, a3) == if b & 8 != 0 then a3 else 0
    ensures Select(b >> 1 >> 1 >> 1 >> 1, a4) == if b & 16 != 0 then a4 else 0
    ensures Select(b >> 1 >> 1 >> 1 >> 1 >> 1, a5) == if b & 32 != 0 then a5 else 0
    ensures Select(b >> 1 >> 1 >> 1 >> 1 >> 1 >> 1, a6) == if b & 64 != 0 then a6 else 0
    ensures Select(b >> 1 >> 1 >> 1 >> 1 >> 1 >> 1 >> 1, a7) == if b & 128 != 0 then a7 else 0
    ensures b >> 1 >> 1 >> 1 >> 1 >> 1 >> 1 >> 1 >> 1 == 0
  {
  }

  /** The square, which only spreads the bits of its argument. */
  function Square(b: Byte): Byte {
    (if b & 1 != 0 then 1 else 0) ^ (if b & 2 != 0 then 4 else 0) ^ (if b & 4 != 0 then 16 else 0)
    ^ (if b & 8 != 0 then 64 else 0) ^ (if b & 16 != 0 then 0x1D else 0) ^ (if b & 32 != 0 then 0x74 else 0)
    ^ (if b & 64 != 0 then 0xCD else 0) ^ (if b & 128 != 0 then 0x13 else 0)
  }

  lemma FlatSquare(b: Byte)
    ensures MulFlat(b, b) == Square(b)
  {
  }

  lemma SquareIsMul(b: Byte)
    ensures Mul(b, b) == Square(b)
  {
    hide Mul, MulFlat, Square;
    MulIsMulFlat(b, b);
    FlatSquare(b);
  }

  /** Eight squarings lead back. */
  lemma EightSquares(b: Byte)
    ensures Square(Square(Square(Square(Square(Square(Square(Square(b)))))))) == b
  {
  }

  lemma OwnSquare(n: Byte)
    requires Square(n) == n
    ensures n == 0 || n == 1
  {
  }

  /** The inverse as the power 254, the product of the powers 2, 4, 8, 16, 32, 64 and 128. */
  function Inverse(b: Byte): Byte {
    var s1 := Square(b);
    var s2 := Square(s1);
    var s3 := Square(s2);
    var s4 := Square(s3);
    var s5 := Square(s4);
    var s6 := Square(s5);
    Mul(s1, Mul(s2, Mul(s3, Mul(s4, Mul(s5, Mul(s6, Square(s6)))))))
  }

  /** A factor next to its own power meets it and becomes the next power. */
  lemma MergeSquare(b: Byte, rest: Byte)
    ensures Mul(b, Mul(b, rest)) == Mul(Square(b), rest)
  {
    hide Mul, Square;
    MulAssociates(b, b, rest);
    SquareIsMul(b);
  }

  /** The power 256 is the byte itself. */
  lemma PowerReturns(b: Byte)
    ensures Mul(b, Mul(b, Inverse(b))) == b
  {
    hide Mul, Square;
    var s1 := Square(b);
    var s2 := Square(s1);
    var s3 := Square(s2);
    var s4 := Square(s3);
    var s5 := Square(s4);
    var s6 := Square(s5);
    var s7 := Square(s6);
    var r6 := Mul(s6, s7);
    var r5 := Mul(s5, r6);
    var r4 := Mul(s4, r5);
    var r3 := Mul(s3, r4);
    var r2 := Mul(s2, r3);
    MergeSquare(b, Mul(s1, r2));
    MergeSquare(s1, r2);
    MergeSquare(s2, r3);
    MergeSquare(s3, r4);
    MergeSquare(s4, r5);
    MergeSquare(s5, r6);
    MergeSquare(s6, s7);
    SquareIsMul(s7);
    EightSquares(b);
  }

  /** Every nonzero byte has an inverse: the power 255 is its own square, and not zero. */
  lemma MulInverse(b: Byte)
    requires b != 0
    ensures Mul(b, Inverse(b)) == 1 == Mul(Inverse(b), b)
  {
    hide Inverse, Mul, Square;
    var n := Mul(b, Inverse(b));
    PowerReturns(b);
    MulCommutes(b, Inverse(b));
    MulCommutes(b, n);
    MulAssociates(Inverse(b), b, n);
    SquareIsMul(n);
    OwnSquare(n);
    MulZeroLeft(b);
  }

  lemma MulOneRight(a: Byte)
    ensures Mul(a, 1) == a
  {
    MulCommutes(a, 1);
    MulOneLeft(a);
  }

  /** A product vanishes only if a factor does. */
  lemma NoZeroDivisors(a: Byte, b: Byte)
    ensures Mul(a, b) == 0 <==> a == 0 || b == 0
  {
    hide Inverse;
    MulZeroLeft(b);
    if a != 0 && Mul(a, b) == 0 {
      calc {
        b;
        { MulOneLeft(b); MulInverse(a); }
        Mul(Mul(Inverse(a), a), b);
        { MulAssociates(Inverse(a), a, b); }
        Mul(Inverse(a), 0);
        0;
      }
    }
  }

  // ----- the lookup tables -----

  /** Entry (x, y) of the product table, which the code indexes by x * 256 + y. */
  function MulTable(index: bv16): Byte {
    Mul(High(index), Low(index))
  }

  /** Entry (x, y) of the quotient table; the rows for y == 0 hold 255. */
  function DivTable(index: bv16): Byte {
    if Low(index) == 0 then 255 else Mul(High(index), Inverse(Low(index)))
  }

  function High(index: bv16): Byte { (index >> 8) as Byte }

  function Low(index: bv16): Byte { (index & 0xFF) as Byte }

  function Index(x: Byte, y: Byte): bv16 { ((x as bv16) << 8) | (y as bv16) }

  lemma IndexParts(x: Byte, y: Byte)
    ensures High(Index(x, y)) == x && Low(Index(x, y)) == y
  {
  }

  function SubElem(x: Byte, y: Byte): Byte { x ^ y }

  function MulElem(x: Byte, y: Byte): (z: Byte)
    ensures z == Mul(x, y)
  {
    IndexParts(x, y);
    MulTable(Index(x, y))
  }

  function DivElem(x: Byte, y: Byte): (z: Byte)
    ensures z == if y == 0 then 255 else Mul(x, Inverse(y))
  {
    IndexParts(x, y);
    DivTable(Index(x, y))
  }

  /** Division by a nonzero byte gives the one quotient there is. */
  lemma DivElemUnique(x: Byte, y: Byte, z: Byte)
    requires y != 0
    ensures MulElem(z, y) == x <==> z == DivElem(x, y)
  {
    hide Mul, Inverse;
    MulAssociates(x, Inverse(y), y);
    MulInverse(y);
    MulOneRight(x);
    MulAssociates(z, y, Inverse(y));
    MulOneRight(z);
  }
}
