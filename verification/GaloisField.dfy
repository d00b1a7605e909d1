/** GF(2^8) with the AES polynomial x^8 + x^4 + x^3 + x + 1 (FIPS 197, section 4.2).

    `Mul` is the shift-and-reduce product read as a recursion on the multiplier's bits; the loops of the
    source are proved equal to it. The field laws are proved once per bit step (no table of 2^16 cases):
    distributivity first, then commutativity and associativity by recursion on a multiplier, and the
    inverse from the Frobenius map. Definitions are hidden inside those proofs so that the solver works
    with the named laws and not with unfolded bit operations. */
module GaloisField {
  import opened Wrappers

  datatype FieldError = InvertZero

  function Add(x: bv8, y: bv8): bv8 {
    x ^ y
  }

  /** Multiplication by the polynomial x: shift, and reduce by 0x11b when the shift overflows. */
  function XTime(x: bv8): bv8 {
    if x & 0x80 != 0 then (x << 1) ^ 0x1b else x << 1
  }

  /** `x` when the lowest bit of `bits` is set, else zero. */
  function Pick(x: bv8, bits: bv8): bv8 {
    if bits & 1 != 0 then x else 0
  }

  function Mul(x: bv8, y: bv8): bv8
    decreases y
  {
    if y == 0 then 0 else Add(Pick(x, y), Mul(XTime(x), y >> 1))
  }

  function Pow(a: bv8, n: nat): bv8 {
    if n == 0 then 1 else Mul(a, Pow(a, n - 1))
  }

  /** The multiplicative inverse by Fermat's exponent; zero is sent to zero. */
  function Inverse(a: bv8): bv8 {
    Pow(a, 254)
  }

  function Div(a: bv8, b: bv8): bv8 {
    Mul(a, Inverse(b))
  }

  // ----- one-step facts about bits -----

  lemma AddComm(x: bv8, y: bv8)
    ensures Add(x, y) == Add(y, x)
  {}

  lemma AddAssoc(x: bv8, y: bv8, z: bv8)
    ensures Add(Add(x, y), z) == Add(x, Add(y, z))
  {}

  lemma AddZero(x: bv8)
    ensures Add(x, 0) == x && Add(0, x) == x
  {}

  lemma AddSelf(x: bv8)
    ensures Add(x, x) == 0
  {}

  lemma AddCancel(x: bv8, y: bv8)
    ensures Add(x, y) == 0 <==> x == y
    ensures Add(x, Add(x, y)) == y
  {}

  lemma AddSwap(a: bv8, b: bv8, c: bv8, d: bv8)
    ensures Add(Add(a, b), Add(c, d)) == Add(Add(a, c), Add(b, d))
  {
    hide *;
    AddAssoc(a, b, Add(c, d));
    AddAssoc(b, c, d);
    AddComm(b, c);
    AddAssoc(c, b, d);
    AddAssoc(a, c, Add(b, d));
  }

  lemma XTimeXor(x: bv8, z: bv8)
    ensures XTime(x ^ z) == XTime(x) ^ XTime(z)
  {
    assert (x ^ z) & 0x80 == (x & 0x80) ^ (z & 0x80);
    if x & 0x80 != 0 {
      if z & 0x80 != 0 {} else {}
    } else if z & 0x80 != 0 {} else {}
  }

  lemma XTimeAdd(x: bv8, z: bv8)
    ensures XTime(Add(x, z)) == Add(XTime(x), XTime(z))
  {
    XTimeXor(x, z);
    hide XTime;
  }

  lemma XTimePick(x: bv8, y: bv8)
    ensures XTime(Pick(x, y)) == Pick(XTime(x), y)
  {}

  lemma PickAdd(x: bv8, z: bv8, y: bv8)
    ensures Pick(Add(x, z), y) == Add(Pick(x, y), Pick(z, y))
  {}

  lemma PickBits(x: bv8, y: bv8, z: bv8)
    ensures Pick(x, Add(y, z)) == Add(Pick(x, y), Pick(x, z))
  {}

  lemma ShiftAdd(y: bv8, z: bv8)
    ensures Add(y, z) >> 1 == Add(y >> 1, z >> 1)
  {}

  lemma ShiftLess(y: bv8)
    requires y != 0
    ensures y >> 1 < y
  {}

  lemma ShiftBothLess(y: bv8, z: bv8)
    requires y | z != 0
    ensures (y >> 1) | (z >> 1) < y | z
  {}

  /** Splits a byte at its highest bit. */
  lemma HighBit(y: bv8)
    ensures Add(y & 0x7f, y & 0x80) == y
    ensures ((y & 0x7f) << 1) >> 1 == y & 0x7f
    ensures y & 0x80 == 0 || y & 0x80 == 0x80
    ensures XTime(y) == Add((y & 0x7f) << 1, if y & 0x80 == 0 then 0 else 0x1b)
    ensures XTime(0) == 0
  {}

  lemma PickEven(x: bv8, y: bv8)
    ensures Pick(x, (y & 0x7f) << 1) == 0
  {}

  /** Splits a byte at its lowest bit. */
  lemma LowBit(y: bv8)
    ensures Add(y & 1, XTime(y >> 1)) == y
    ensures forall x :: Pick(x, y) == if y & 1 == 1 then x else 0
    ensures y & 1 == 0 || y & 1 == 1
  {}

  /** x^8 = x^4 + x^3 + x + 1 in this field. */
  lemma ReductionIdentity(x: bv8)
    ensures var x3 := XTime(XTime(XTime(x)));
      XTime(XTime(XTime(XTime(XTime(x3))))) == Add(x, Add(XTime(x), Add(x3, XTime(x3))))
  {}

  // ----- the ring laws -----

  lemma MulZero(x: bv8)
    ensures Mul(x, 0) == 0
  {}

  lemma MulStep(x: bv8, y: bv8)
    ensures Mul(x, y) == Add(Pick(x, y), Mul(XTime(x), y >> 1))
  {}

  lemma MulOne(x: bv8)
    ensures Mul(x, 1) == x
  {
    MulStep(x, 1);
    MulZero(XTime(x));
  }

  lemma {:induction false} MulAddLeft(x: bv8, z: bv8, y: bv8)
    ensures Mul(Add(x, z), y) == Add(Mul(x, y), Mul(z, y))
    decreases y
  {
    hide *;
    if y == 0 {
      MulZero(Add(x, z));
      MulZero(x);
      MulZero(z);
      AddZero(0);
    } else {
      ShiftLess(y);
      XTimeAdd(x, z);
      MulAddLeft(XTime(x), XTime(z), y >> 1);
      MulStep(Add(x, z), y);
      MulStep(x, y);
      MulStep(z, y);
      PickAdd(x, z, y);
      AddSwap(Pick(x, y), Pick(z, y), Mul(XTime(x), y >> 1), Mul(XTime(z), y >> 1));
    }
  }

  lemma {:induction false} MulAddRight(x: bv8, y: bv8, z: bv8)
    ensures Mul(x, Add(y, z)) == Add(Mul(x, y), Mul(x, z))
    decreases y | z
  {
    hide *;
    if y | z == 0 {
      MulZero(x);
      AddZero(0);
      AddZero(z);
      AddZero(y);
    } else {
      ShiftBothLess(y, z);
      MulAddRight(XTime(x), y >> 1, z >> 1);
      ShiftAdd(y, z);
      MulStep(x, y);
      MulStep(x, z);
      MulStep(x, Add(y, z));
      PickBits(x, y, z);
      AddSwap(Pick(x, y), Pick(x, z), Mul(XTime(x), y >> 1), Mul(XTime(x), z >> 1));
    }
  }

  lemma {:induction false} MulXTimeLeft(x: bv8, y: bv8)
    ensures Mul(XTime(x), y) == XTime(Mul(x, y))
    decreases y
  {
    hide *;
    if y == 0 {
      MulZero(x);
      MulZero(XTime(x));
      HighBit(0);
    } else {
      ShiftLess(y);
      MulXTimeLeft(XTime(x), y >> 1);
      XTimeAdd(Pick(x, y), Mul(XTime(x), y >> 1));
      XTimePick(x, y);
      MulStep(x, y);
      MulStep(XTime(x), y);
    }
  }

  lemma MulBit7(x: bv8)
    ensures Mul(x, 0x80) == XTime(XTime(XTime(XTime(XTime(XTime(XTime(x)))))))
  {
    hide XTime, Add, Mul;
    var x1 := XTime(x);
    var x2 := XTime(x1);
    var x3 := XTime(x2);
    var x4 := XTime(x3);
    var x5 := XTime(x4);
    var x6 := XTime(x5);
    MulStep(x, 0x80);
    MulStep(x1, 0x40);
    MulStep(x2, 0x20);
    MulStep(x3, 0x10);
    MulStep(x4, 8);
    MulStep(x5, 4);
    MulStep(x6, 2);
    MulOne(XTime(x6));
    AddZero(XTime(x6));
  }

  lemma MulReduction(x: bv8)
    ensures Mul(x, 0x1b) == Add(x, Add(XTime(x), Add(XTime(XTime(XTime(x))), XTime(XTime(XTime(XTime(x)))))))
  {
    hide XTime, Add, Mul;
    var x1 := XTime(x);
    var x2 := XTime(x1);
    var x3 := XTime(x2);
    MulStep(x, 0x1b);
    MulStep(x1, 0xd);
    MulStep(x2, 6);
    MulStep(x3, 3);
    MulOne(XTime(x3));
    AddZero(Mul(x3, 3));
  }

  lemma MulXTimeRight(x: bv8, y: bv8)
    ensures Mul(x, XTime(y)) == XTime(Mul(x, y))
  {
    hide *;
    var low, high := y & 0x7f, y & 0x80;
    HighBit(y);
    MulStep(x, low << 1);
    PickEven(x, y);
    AddZero(Mul(XTime(x), low));
    MulAddRight(x, low << 1, if high == 0 then 0 else 0x1b);
    MulAddRight(XTime(x), low, high);
    MulXTimeLeft(x, y);
    if high == 0 {
      MulZero(x);
      MulZero(XTime(x));
    } else {
      MulBit7(XTime(x));
      MulReduction(x);
      ReductionIdentity(x);
    }
  }

  lemma {:induction false} MulZeroLeft(y: bv8)
    ensures Mul(0, y) == 0
    decreases y
  {
    hide *;
    if y == 0 {
      MulZero(0);
    } else {
      ShiftLess(y);
      MulZeroLeft(y >> 1);
      HighBit(0);
      MulStep(0, y);
      LowBit(y);
      AddZero(0);
    }
  }

  lemma {:induction false} MulOneLeft(y: bv8)
    ensures Mul(1, y) == y
    decreases y
  {
    hide *;
    if y == 0 {
      MulZero(1);
    } else {
      ShiftLess(y);
      MulStep(1, y);
      LowBit(y);
      MulXTimeLeft(1, y >> 1);
      MulOneLeft(y >> 1);
    }
  }

  lemma {:induction false} MulComm(x: bv8, y: bv8)
    ensures Mul(x, y) == Mul(y, x)
    decreases y
  {
    hide *;
    if y == 0 {
      MulZero(x);
      MulZeroLeft(x);
    } else {
      ShiftLess(y);
      var half := y >> 1;
      MulComm(XTime(x), half);
      MulXTimeRight(half, x);
      MulXTimeLeft(half, x);
      MulAddLeft(y & 1, XTime(half), x);
      MulOneLeft(x);
      MulZeroLeft(x);
      LowBit(y);
      MulStep(x, y);
    }
  }

  lemma {:induction false} MulAssoc(x: bv8, y: bv8, z: bv8)
    ensures Mul(Mul(x, y), z) == Mul(x, Mul(y, z))
    decreases z
  {
    hide *;
    if z == 0 {
      MulZero(y);
      MulZero(x);
      MulZero(Mul(x, y));
    } else {
      ShiftLess(z);
      var half := z >> 1;
      MulStep(Mul(x, y), z);
      MulXTimeRight(x, y);
      MulAssoc(x, XTime(y), half);
      MulStep(y, z);
      MulAddRight(x, Pick(y, z), Mul(XTime(y), half));
      LowBit(z);
      MulZero(x);
    }
  }

  // ----- squaring is linear, and squaring eight times is the identity -----

  function Square(x: bv8): bv8 {
    Mul(x, x)
  }

  lemma SquareAdd(x: bv8, y: bv8)
    ensures Square(Add(x, y)) == Add(Square(x), Square(y))
  {
    hide Mul, Add;
    var cross := Mul(x, y);
    MulAddLeft(x, y, Add(x, y));
    MulAddRight(x, x, y);
    MulAddRight(y, x, y);
    MulComm(x, y);
    AddComm(Mul(x, x), cross);
    AddSwap(cross, Mul(x, x), cross, Mul(y, y));
    AddSelf(cross);
    AddZero(Add(Mul(x, x), Mul(y, y)));
  }

  lemma SquareStep(y: bv8)
    ensures Square(y) == Add(y & 1, XTime(XTime(Square(y >> 1))))
  {
    hide Mul, Add, XTime;
    var half := y >> 1;
    LowBit(y);
    SquareAdd(y & 1, XTime(half));
    MulXTimeLeft(half, XTime(half));
    MulXTimeRight(half, half);
    MulOne(1);
    MulZero(0);
  }

  /** Squaring, squaring twice and squaring four times as matrices over the bits: the constants are the
      images of 1, x, ..., x^7. */
  function SquareBits(x: bv8): bv8 {
    Pick(1, x) ^ Pick(4, x >> 1) ^ Pick(0x10, x >> 2) ^ Pick(0x40, x >> 3)
    ^ Pick(0x1b, x >> 4) ^ Pick(0x6c, x >> 5) ^ Pick(0xab, x >> 6) ^ Pick(0x9a, x >> 7)
  }

  function Square2Bits(x: bv8): bv8 {
    Pick(1, x) ^ Pick(0x10, x >> 1) ^ Pick(0x1b, x >> 2) ^ Pick(0xab, x >> 3)
    ^ Pick(0x5e, x >> 4) ^ Pick(0x97, x >> 5) ^ Pick(0xb3, x >> 6) ^ Pick(0xc5, x >> 7)
  }

  function Square4Bits(x: bv8): bv8 {
    Pick(1, x) ^ Pick(0x5e, x >> 1) ^ Pick(0xe4, x >> 2) ^ Pick(0xe8, x >> 3)
    ^ Pick(0x4d, x >> 4) ^ Pick(0x91, x >> 5) ^ Pick(0x1d, x >> 6) ^ Pick(0x6c, x >> 7)
  }

  lemma SquareIsLinear(x: bv8)
    ensures Square(x) == SquareBits(x)
  {
    var x1 := x >> 1;
    var x2 := x1 >> 1;
    var x3 := x2 >> 1;
    var x4 := x3 >> 1;
    var x5 := x4 >> 1;
    var x6 := x5 >> 1;
    var x7 := x6 >> 1;
    assert x7 >> 1 == 0;
    assert Square(0) == 0 by { MulZero(0); }
    hide Square, Mul;
    SquareStep(x7);
    SquareStep(x6);
    SquareStep(x5);
    SquareStep(x4);
    assert Square(x4) == Pick(1, x4) ^ Pick(4, x5) ^ Pick(0x10, x6) ^ Pick(0x40, x7);
    SquareStep(x3);
    SquareStep(x2);
    SquareStep(x1);
    SquareStep(x);
  }

  lemma SquareTwice(x: bv8)
    ensures Square(Square(x)) == Square2Bits(x)
  {
    SquareIsLinear(x);
    SquareIsLinear(Square(x));
    hide Square, Mul;
  }

  lemma SquareFour(x: bv8)
    ensures Square2Bits(Square2Bits(x)) == Square4Bits(x)
  {}

  lemma SquareEight(x: bv8)
    ensures Square4Bits(Square4Bits(x)) == x
  {}

  lemma SquareFixed(x: bv8)
    requires SquareBits(x) == x
    ensures x == 0 || x == 1
  {}

  // ----- powers and inverses -----

  lemma {:induction false} PowAdd(a: bv8, m: nat, n: nat)
    ensures Pow(a, m + n) == Mul(Pow(a, m), Pow(a, n))
  {
    hide Mul;
    if m == 0 {
      MulOneLeft(Pow(a, n));
    } else {
      PowAdd(a, m - 1, n);
      MulAssoc(a, Pow(a, m - 1), Pow(a, n));
    }
  }

  lemma PowDouble(a: bv8, n: nat)
    ensures Pow(a, 2 * n) == Square(Pow(a, n))
  {
    hide Pow, Mul;
    assert 2 * n == n + n;
    PowAdd(a, n, n);
  }

  lemma PowOne(a: bv8)
    ensures Pow(a, 1) == a
  {
    hide Mul;
    assert Pow(a, 1) == Mul(a, 1);
    MulOne(a);
  }

  /** Every byte is its own 256th power. */
  lemma Frobenius(a: bv8)
    ensures Pow(a, 256) == a
  {
    hide *;
    PowOne(a);
    PowDouble(a, 1);
    PowDouble(a, 2);
    PowDouble(a, 4);
    PowDouble(a, 8);
    PowDouble(a, 16);
    PowDouble(a, 32);
    PowDouble(a, 64);
    PowDouble(a, 128);
    SquareTwice(a);
    SquareTwice(Pow(a, 4));
    SquareTwice(Pow(a, 16));
    SquareTwice(Pow(a, 64));
    SquareFour(a);
    SquareFour(Pow(a, 16));
    SquareEight(a);
  }

  /** Fermat: the 255th power is fixed by squaring, so it is 0 or 1, and 0 would make `a` zero. */
  lemma MulInverse(a: bv8)
    requires a != 0
    ensures Mul(a, Inverse(a)) == 1
  {
    hide Mul, SquareBits;
    var e := Pow(a, 255);
    Frobenius(a);
    assert Mul(a, Inverse(a)) == e;
    assert Mul(a, e) == a;
    hide Pow;
    PowDouble(a, 255);
    PowAdd(a, 256, 254);
    SquareIsLinear(e);
    SquareFixed(e);
    MulZero(a);
  }

  lemma NoZeroDivisors(a: bv8, b: bv8)
    requires Mul(a, b) == 0
    ensures a == 0 || b == 0
  {
    hide *;
    if a != 0 {
      MulInverse(a);
      MulComm(a, Inverse(a));
      MulAssoc(Inverse(a), a, b);
      MulOneLeft(b);
      MulZero(Inverse(a));
    }
  }

  lemma DivSelf(a: bv8)
    requires a != 0
    ensures Div(a, a) == 1
  {
    hide Mul, Inverse;
    MulInverse(a);
  }

  lemma DivZero(b: bv8)
    ensures Div(0, b) == 0
  {
    hide Mul, Inverse;
    MulZeroLeft(Inverse(b));
  }

  /** What fixes the field among the fields of 256 elements: doubling shifts the bits, and x^8 is
      x^4 + x^3 + x + 1. */
  lemma DoublingReduces(x: bv8)
    ensures Mul(x, 2) == if x < 0x80 then x << 1 else (x << 1) ^ 0x1b
    ensures Mul(0x80, 2) == 0x1b
  {
    TimesTwo(x);
    TimesTwo(0x80);
    hide Mul, Add, Pick;
    assert 0x80 as bv8 << 1 == 0;
  }

  lemma TimesTwo(x: bv8)
    ensures Mul(x, 2) == XTime(x) && (x & 0x80 != 0 <==> x >= 0x80)
  {
    MulStep(x, 2);
    assert (2 as bv8) >> 1 == 1 && Pick(x, 2) == 0;
    hide Mul, Add, Pick, XTime;
    MulOne(XTime(x));
    AddZero(XTime(x));
  }

  // ----- the source's loops -----

  /** The source's two statements on `x`: shift left, then reduce by 0x11b when bit 8 is set. */
  function ShiftReduce(x: bv16): bv16 {
    var shifted := x << 1;
    if shifted & 0x100 != 0 then shifted ^ 0x11b else shifted
  }

  lemma ShiftReduceIsXTime(x: bv8)
    ensures ShiftReduce(x as bv16) == XTime(x) as bv16
  {}

  lemma WideAdd(r: bv8, x: bv8)
    ensures (r as bv16) ^ (x as bv16) == Add(r, x) as bv16
  {}

  lemma WideShift(y: bv8)
    ensures (y as bv16) >> 1 == (y >> 1) as bv16
  {}

  lemma WideBit(y: bv8)
    ensures (y as bv16) & 1 != 0 <==> y & 1 != 0
    ensures y as bv16 > 0 <==> y != 0
  {}

  /** What one turn of the loop does to the bytes that the words hold. */
  lemma LoopTurn(r: bv8, x: bv8, y: bv8)
    requires y != 0
    ensures (if (y as bv16) & 1 != 0 then (r as bv16) ^ (x as bv16) else r as bv16) == Add(r, Pick(x, y)) as bv16
    ensures Add(Add(r, Pick(x, y)), Mul(XTime(x), y >> 1)) == Add(r, Mul(x, y))
  {
    hide *;
    MulStep(x, y);
    AddAssoc(r, Pick(x, y), Mul(XTime(x), y >> 1));
    WideBit(y);
    LowBit(y);
    AddZero(r);
    WideAdd(r, x);
  }

  lemma LoopExit(r: bv8, x: bv8)
    ensures Add(r, Mul(x, 0)) == r && (r as bv16) as bv8 == r
  {
    MulZero(x);
    AddZero(r);
    hide *;
  }

  /** The shift-and-reduce loop; `x` passes through nine bits before it is reduced. */
  method GfMul(a: bv8, b: bv8) returns (product: bv8)
    ensures product == Mul(a, b)
  {
    var r: bv16, x: bv16, y: bv16 := 0, a as bv16, b as bv16;
    ghost var r0: bv8, x0: bv8, y0: bv8 := 0, a, b;
    AddZero(Mul(a, b));
    hide *;
    while y > 0
      invariant r == r0 as bv16 && x == x0 as bv16 && y == y0 as bv16
      invariant Add(r0, Mul(x0, y0)) == Mul(a, b)
      decreases y0
    {
      WideBit(y0);
      LoopTurn(r0, x0, y0);
      ShiftReduceIsXTime(x0);
      WideShift(y0);
      ShiftLess(y0);
      if y & 1 != 0 {
        r := r ^ x;
      }
      x := ShiftReduce(x);
      y := y >> 1;
      r0, x0, y0 := Add(r0, Pick(x0, y0)), XTime(x0), y0 >> 1;
    }
    WideBit(y0);
    LoopExit(r0, x0);
    product := r as bv8;
  }

  /** Six rounds of square-and-multiply reach exponent 127, one more square reaches 254. */
  method GfInv(a: bv8) returns (inverse: Result<bv8, FieldError>)
    ensures a == 0 <==> inverse == Err(InvertZero)
    ensures a != 0 ==> inverse == Ok(Inverse(a)) && Mul(a, inverse.value) == 1
  {
    if a == 0 {
      return Err(InvertZero);
    }
    hide Mul;
    var r := a;
    ghost var e: nat := 1;
    PowOne(a);
    for i := 0 to 6
      invariant e == [1, 3, 7, 15, 31, 63, 127][i]
      invariant r == Pow(a, e)
    {
      PowDouble(a, e);
      MulComm(Square(r), a);
      r := GfMul(r, r);
      r := GfMul(r, a);
      e := 2 * e + 1;
    }
    PowDouble(a, 127);
    r := GfMul(r, r);
    MulInverse(a);
    inverse := Ok(r);
  }

  method GfDiv(a: bv8, b: bv8) returns (quotient: Result<bv8, FieldError>)
    ensures b == 0 <==> quotient == Err(InvertZero)
    ensures b != 0 ==> quotient == Ok(Div(a, b)) && Mul(quotient.value, b) == a
  {
    hide Mul, Inverse;
    var inverse := GfInv(b);
    if inverse.Err? {
      return Err(InvertZero);
    }
    var product := GfMul(a, inverse.value);
    MulAssoc(a, inverse.value, b);
    MulComm(inverse.value, b);
    MulOne(a);
    quotient := Ok(product);
  }
}
