/** Powers of the indeterminate modulo the CRC polynomial. Running the register over
    zero bytes multiplies it by such a power, and repeated squaring computes powers
    that are too high to step to. Words are naturals in the theory and bit vectors
    where constants are computed. */
module CrcPowers {
  import opened Rounding
  import opened Objects
  import opened Crc32c

  /** The polynomial 1; a bit step multiplies by the indeterminate. */
  const ONE: word := 0x8000_0000

  function Power(n: nat): word { Bits(n, ONE) }

  lemma PowerStep(m: nat, n: nat)
    ensures Bits(m, Power(n)) == Power(n + m)
  {
    BitsAdd(n, m, ONE);
  }

  // --------------------------------------------------------------- squaring

  /** The square of a polynomial without its `j` highest powers, which were bits
      0 to `j - 1`: squaring is linear and doubles every exponent. */
  function Square(j: nat, a: nat): word
    requires j <= 32
    decreases 32 - j
  {
    if j == 32 then 0
    else XorW(if a % 2 == 1 then Power(62 - 2 * j) else 0, Square(j + 1, a / 2))
  }

  function Pick(c: bool, t: word): word { if c then t else 0 }

  lemma PickXor(c: bool, d: bool, t: word)
    ensures Pick(c != d, t) == XorW(Pick(c, t), Pick(d, t))
  {
    hide Xor;
    XorZero(t);
    XorZero(0);
  }

  lemma {:induction false} SquareXor(j: nat, a: nat, b: nat)
    requires j <= 32
    ensures Square(j, Xor(a, b)) == XorW(Square(j, a), Square(j, b))
    decreases 32 - j
  {
    hide Xor, Power;
    if j == 32 {
      XorZero(0);
    } else {
      XorHalf(a, b);
      SquareXor(j + 1, a / 2, b / 2);
      PickXor(a % 2 == 1, b % 2 == 1, Power(62 - 2 * j));
      XorPairs(Pick(a % 2 == 1, Power(62 - 2 * j)), Square(j + 1, a / 2), Pick(b % 2 == 1, Power(62 - 2 * j)), Square(j + 1, b / 2));
    }
  }

  /** Doubling the exponents of a multiple of the indeterminate. */
  lemma {:induction false} SquareShift(j: nat, a: nat)
    requires j < 32 && a < Pow2(31 - j)
    ensures Square(j, a) == Bits(2, Square(j + 1, a))
    decreases 32 - j
  {
    hide Xor, Bits;
    StaysZero(2);
    if j == 31 {
      XorZero(0);
    } else {
      SquareShift(j + 1, a / 2);
      PowerStep(2, 60 - 2 * j);
      BitsLinear(2, Pick(a % 2 == 1, Power(60 - 2 * j)), Square(j + 2, a / 2));
    }
  }

  lemma {:induction false} SquareOne(j: nat)
    requires j < 32
    ensures Square(j, Pow2(31 - j)) == ONE
    decreases 32 - j
  {
    hide Xor;
    if j < 31 {
      SquareOne(j + 1);
      XorZero(ONE);
    } else {
      assert Square(32, 0) == 0 && Power(0) == ONE;
      XorZero(ONE);
    }
  }

  // ------------------------------------------------------------ bit vectors

  /** The number that the low `k` bits of a vector stand for. */
  function Value(k: nat, c: bv32): nat {
    if k == 0 then 0 else (if c & 1 == 1 then 1 else 0) + 2 * Value(k - 1, c >> 1)
  }

  lemma {:induction false} ValueBound(k: nat, c: bv32)
    ensures Value(k, c) < Pow2(k)
  {
    if k > 0 { ValueBound(k - 1, c >> 1); }
  }

  function Num(c: bv32): word {
    ValueBound(32, c);
    Pow32();
    Value(32, c)
  }

  lemma VectorXor(x: bv32, y: bv32)
    ensures (x ^ y) >> 1 == (x >> 1) ^ (y >> 1)
    ensures (x ^ y) & 1 == 1 <==> (x & 1 == 1) != (y & 1 == 1)
  {
  }

  lemma XorDouble(a: nat, b: nat, p: bool, q: bool)
    ensures Xor((if p then 1 else 0) + 2 * a, (if q then 1 else 0) + 2 * b) == (if p != q then 1 else 0) + 2 * Xor(a, b)
  {
    XorHalf((if p then 1 else 0) + 2 * a, (if q then 1 else 0) + 2 * b);
  }

  lemma {:induction false} ValueXor(k: nat, x: bv32, y: bv32)
    ensures Value(k, x ^ y) == Xor(Value(k, x), Value(k, y))
  {
    hide Xor;
    if k == 0 {
      XorZero(0);
    } else {
      VectorXor(x, y);
      ValueXor(k - 1, x >> 1, y >> 1);
      XorDouble(Value(k - 1, x >> 1), Value(k - 1, y >> 1), x & 1 == 1, y & 1 == 1);
    }
  }

  /** Only the low `k` bits can be set. */
  predicate Below(k: nat, c: bv32) { if k == 0 then c == 0 else Below(k - 1, c >> 1) }

  /** Bits that are clear do not count. */
  lemma {:induction false} ValueMore(k: nat, c: bv32)
    requires Below(k, c)
    ensures Value(k + 1, c) == Value(k, c)
  {
    if k > 0 { ValueMore(k - 1, c >> 1); }
  }

  lemma BelowFour(k: nat, c: bv32)
    ensures Below(k + 4, c) == Below(k, c >> 4)
  {
    assert Below(k + 3, c >> 1) == Below(k + 2, c >> 2);
    assert Below(k + 2, c >> 2) == Below(k + 1, c >> 3);
    assert Below(k + 1, c >> 3) == Below(k, c >> 4);
  }

  lemma BelowEight(k: nat, c: bv32)
    ensures Below(k + 8, c) == Below(k, c >> 8)
  {
    hide Below;
    BelowFour(k + 4, c);
    BelowFour(k, c >> 4);
    ShiftTwice(c);
  }

  lemma ShiftTwice(c: bv32)
    ensures (c >> 4) >> 4 == c >> 8
  {
  }

  lemma AllBelow(c: bv32)
    ensures Below(32, c)
  {
    hide Below;
    var d := c >> 8;
    var e := d >> 8;
    var f := e >> 8;
    BelowEight(24, c);
    BelowEight(16, d);
    BelowEight(8, e);
    BelowEight(0, f);
    assert f >> 8 == 0;
    Nothing();
  }

  lemma Nothing()
    ensures Below(0, 0)
  {
  }

  function Step(c: bv32): bv32 { if c & 1 == 1 then (c >> 1) ^ 0x82F6_3B78 else c >> 1 }

  lemma Parity(c: bv32)
    ensures Num(c) % 2 == 1 <==> c & 1 == 1
    ensures Num(c) / 2 == Num(c >> 1)
  {
    hide Below;
    AllBelow(c);
    BelowHalf(c);
    ValueMore(31, c >> 1);
  }

  lemma BelowHalf(c: bv32)
    requires Below(32, c)
    ensures Below(31, c >> 1)
  {
  }

  lemma StepIsBit(c: bv32)
    ensures Num(Step(c)) == Bit(Num(c))
  {
    hide Xor, Value;
    Parity(c);
    ValueXor(32, c >> 1, 0x82F6_3B78);
    PolynomialValue();
  }

  function Lowest(c: bv32): nat { if c & 1 == 1 then 1 else 0 }

  function Nibble(c: bv32): nat {
    Lowest(c) + 2 * Lowest(c >> 1) + 4 * Lowest(c >> 2) + 8 * Lowest(c >> 3)
  }

  lemma ValueFour(k: nat, c: bv32)
    ensures Value(k + 4, c) == Nibble(c) + 16 * Value(k, c >> 4)
  {
    assert Value(k + 3, c >> 1) == Lowest(c >> 1) + 2 * Value(k + 2, c >> 2);
    assert Value(k + 2, c >> 2) == Lowest(c >> 2) + 2 * Value(k + 1, c >> 3);
    assert Value(k + 1, c >> 3) == Lowest(c >> 3) + 2 * Value(k, c >> 4);
  }

  function ByteAt(c: bv32): nat { Nibble(c) + 16 * Nibble(c >> 4) }

  lemma ValueEight(k: nat, c: bv32)
    ensures Value(k + 8, c) == ByteAt(c) + 0x100 * Value(k, c >> 8)
  {
    hide Value, Nibble;
    ValueFour(k + 4, c);
    ValueFour(k, c >> 4);
    ShiftTwice(c);
  }

  lemma ShiftAgain(c: bv32)
    ensures (c >> 8) >> 8 == c >> 16
  {
  }

  function TwoBytes(c: bv32): nat { ByteAt(c) + 0x100 * ByteAt(c >> 8) }

  lemma ValueSixteen(k: nat, c: bv32)
    ensures Value(k + 16, c) == TwoBytes(c) + 0x1_0000 * Value(k, c >> 16)
  {
    hide Value, ByteAt;
    ValueEight(k + 8, c);
    ValueEight(k, c >> 8);
    ShiftAgain(c);
  }

  /** The number by its bytes, which literals can be computed with. */
  lemma NumBytes(c: bv32)
    ensures Num(c) == TwoBytes(c) + 0x1_0000 * TwoBytes(c >> 16)
  {
    hide Value, TwoBytes;
    var d := c >> 16;
    ValueSixteen(16, c);
    ValueSixteen(0, d);
    NoValue(d >> 16);
  }

  lemma NoValue(c: bv32)
    ensures Value(0, c) == 0
  {
  }

  lemma PolynomialValue()
    ensures Num(0x82F6_3B78) == POLYNOMIAL
  {
    hide Num;
    NumBytes(0x82F6_3B78);
  }

  lemma OneValue()
    ensures Num(0x8000_0000) == ONE
  {
    hide Num;
    NumBytes(0x8000_0000);
  }

  lemma {:induction false} StepSquare(a: word)
    ensures Square(0, Bit(a)) == Bits(2, Square(0, a))
  {
    hide Xor, Bits, Power;
    Pow32();
    var q := a / 2;
    SquareShift(0, q);
    PickTop(a % 2 == 1);
    BitsLinear(2, Pick(a % 2 == 1, Power(62)), Square(1, q));
    if a % 2 == 1 {
      SquareXor(0, q, POLYNOMIAL);
      SquarePolynomial();
      PowerStep(2, 62);
      XorCommutes(Bits(2, Square(1, q)), Power(64));
    } else {
      StaysZero(2);
      XorZero(Bits(2, Square(1, q)));
    }
  }

  lemma PickTop(c: bool)
    ensures Pick(c, Power(62)) == if c then Power(62) else 0
  {
  }

  lemma {:induction false} SquareBits(n: nat, a: word)
    ensures Square(0, Bits(n, a)) == Bits(2 * n, Square(0, a))
    decreases n
  {
    hide Square, Bit;
    if n > 0 {
      StepSquare(a);
      SquareBits(n - 1, Bit(a));
      BitsAdd(2, 2 * (n - 1), Square(0, a));
    }
  }

  /** The powers with an even exponent from 62 down to 0. */
  function Even(j: nat): bv32 {
    match j
    case 0 => 0xBF67_2381
    case 1 => 0xF644_63E6
    case 2 => 0xD725_148B
    case 3 => 0x52A0_C93F
    case 4 => 0x4F6F_520D
    case 5 => 0x3851_3EC5
    case 6 => 0xE144_FB14
    case 7 => 0x8B27_7743
    case 8 => 0x2745_30EE
    case 9 => 0x9D14_C3B8
    case 10 => 0x7F8B_E302
    case 11 => 0xFBC3_FAF9
    case 12 => 0xE13B_70F7
    case 13 => 0x8AD9_58CF
    case 14 => 0x20BD_8EDE
    case 15 => 0x82F6_3B78
    case 16 => 0x0000_0002
    case 17 => 0x0000_0008
    case 18 => 0x0000_0020
    case 19 => 0x0000_0080
    case 20 => 0x0000_0200
    case 21 => 0x0000_0800
    case 22 => 0x0000_2000
    case 23 => 0x0000_8000
    case 24 => 0x0002_0000
    case 25 => 0x0008_0000
    case 26 => 0x0020_0000
    case 27 => 0x0080_0000
    case 28 => 0x0200_0000
    case 29 => 0x0800_0000
    case 30 => 0x2000_0000
    case _ => 0x8000_0000
  }

  lemma EvenStep(j: nat)
    requires j < 31
    ensures Even(j) == Step(Step(Even(j + 1)))
  {
    if j < 16 { EvenStepLow(j); }
  }

  lemma EvenStepLow(j: nat)
    requires j < 16
    ensures Even(j) == Step(Step(Even(j + 1)))
  {
  }

  lemma {:induction false} EvenIsPower(j: nat)
    requires j < 32
    ensures Num(Even(j)) == Power(62 - 2 * j)
    decreases 32 - j
  {
    hide Even, Step, Num, Bit;
    if j == 31 {
      LastEven();
      OneValue();
    } else {
      EvenIsPower(j + 1);
      EvenStep(j);
      StepIsBit(Even(j + 1));
      StepIsBit(Step(Even(j + 1)));
      TwoBits(Power(60 - 2 * j));
      PowerStep(2, 60 - 2 * j);
    }
  }

  lemma TwoBits(a: word)
    ensures Bits(2, a) == Bit(Bit(a))
  {
    assert Bits(1, Bit(a)) == Bits(0, Bit(Bit(a)));
  }

  lemma LastEven()
    ensures Even(31) == 0x8000_0000
  {
  }

  // --------------------------------------------------- squaring with vectors

  function One(c: bv32, t: bv32): bv32 { if c & 1 == 1 then t else 0 }

  /** Exclusive or under a name that can be hidden. */
  function Plus(x: bv32, y: bv32): bv32 { x ^ y }

  function Squared(j: nat, c: bv32): bv32
    requires j <= 32
    decreases 32 - j
  {
    if j == 32 then 0 else Plus(One(c, Even(j)), Squared(j + 1, c >> 1))
  }

  lemma NumXor(x: bv32, y: bv32)
    ensures Num(Plus(x, y)) == XorW(Num(x), Num(y))
  {
    ValueXor(32, x, y);
  }

  lemma {:induction false} ZeroValue(k: nat)
    ensures Value(k, 0) == 0
  {
    if k > 0 { ZeroValue(k - 1); }
  }

  lemma OneIsPick(c: bv32, t: bv32)
    ensures Num(One(c, t)) == Pick(c & 1 == 1, Num(t))
  {
    ZeroValue(32);
  }

  lemma {:induction false} SquaredIs(j: nat, c: bv32)
    requires j <= 32
    ensures Num(Squared(j, c)) == Square(j, Value(32 - j, c))
    decreases 32 - j
  {
    hide Xor, Even, Num, Power, Plus;
    ZeroNum();
    if j < 32 {
      SquaredIs(j + 1, c >> 1);
      EvenIsPower(j);
      OneIsPick(c, Even(j));
      NumXor(One(c, Even(j)), Squared(j + 1, c >> 1));
    }
  }

  lemma ZeroNum()
    ensures Num(0) == 0
  {
    ZeroValue(32);
  }

  /** Four coefficients, and what the others add. */
  function Four(c: bv32, t0: bv32, t1: bv32, t2: bv32, t3: bv32, rest: bv32): bv32 {
    Plus(One(c, t0), Plus(One(c >> 1, t1), Plus(One(c >> 2, t2), Plus(One(c >> 3, t3), rest))))
  }

  lemma SquaredFour(j: nat, c: bv32)
    requires j <= 28
    ensures Squared(j, c) == Four(c, Even(j), Even(j + 1), Even(j + 2), Even(j + 3), Squared(j + 4, c >> 4))
  {
    hide One, Even, Plus;
    assert Squared(j + 1, c >> 1) == Plus(One(c >> 1, Even(j + 1)), Squared(j + 2, c >> 2));
    assert Squared(j + 2, c >> 2) == Plus(One(c >> 2, Even(j + 2)), Squared(j + 3, c >> 3));
    assert Squared(j + 3, c >> 3) == Plus(One(c >> 3, Even(j + 3)), Squared(j + 4, c >> 4));
  }

  /** The square of a polynomial without recursion, four coefficients at a time and
      with the table filled in. */
  function Sqr28(c: bv32): bv32 { Four(c, 0x0200_0000, 0x0800_0000, 0x2000_0000, 0x8000_0000, 0) }

  function Sqr24(c: bv32): bv32 { Four(c, 0x0002_0000, 0x0008_0000, 0x0020_0000, 0x0080_0000, Sqr28(c >> 4)) }

  function Sqr20(c: bv32): bv32 { Four(c, 0x0000_0200, 0x0000_0800, 0x0000_2000, 0x0000_8000, Sqr24(c >> 4)) }

  function Sqr16(c: bv32): bv32 { Four(c, 0x0000_0002, 0x0000_0008, 0x0000_0020, 0x0000_0080, Sqr20(c >> 4)) }

  function Sqr12(c: bv32): bv32 { Four(c, 0xE13B_70F7, 0x8AD9_58CF, 0x20BD_8EDE, 0x82F6_3B78, Sqr16(c >> 4)) }

  function Sqr8(c: bv32): bv32 { Four(c, 0x2745_30EE, 0x9D14_C3B8, 0x7F8B_E302, 0xFBC3_FAF9, Sqr12(c >> 4)) }

  function Sqr4(c: bv32): bv32 { Four(c, 0x4F6F_520D, 0x3851_3EC5, 0xE144_FB14, 0x8B27_7743, Sqr8(c >> 4)) }

  function Sqr(c: bv32): bv32 { Four(c, 0xBF67_2381, 0xF644_63E6, 0xD725_148B, 0x52A0_C93F, Sqr4(c >> 4)) }

  lemma Sqr28IsSquared(c: bv32)
    ensures Sqr28(c) == Squared(28, c)
  {
    hide Squared, Four;
    assert Even(28) == 0x0200_0000 && Even(29) == 0x0800_0000 && Even(30) == 0x2000_0000 && Even(31) == 0x8000_0000;
    SquaredFour(28, c);
    NoSquares(c >> 4);
  }

  lemma Sqr24IsSquared(c: bv32)
    ensures Sqr24(c) == Squared(24, c)
  {
    hide Squared, Four;
    assert Even(24) == 0x0002_0000 && Even(25) == 0x0008_0000 && Even(26) == 0x0020_0000 && Even(27) == 0x0080_0000;
    SquaredFour(24, c);
    Sqr28IsSquared(c >> 4);
  }

  lemma Sqr20IsSquared(c: bv32)
    ensures Sqr20(c) == Squared(20, c)
  {
    hide Squared, Four;
    assert Even(20) == 0x0000_0200 && Even(21) == 0x0000_0800 && Even(22) == 0x0000_2000 && Even(23) == 0x0000_8000;
    SquaredFour(20, c);
    Sqr24IsSquared(c >> 4);
  }

  lemma Sqr16IsSquared(c: bv32)
    ensures Sqr16(c) == Squared(16, c)
  {
    hide Squared, Four;
    assert Even(16) == 0x0000_0002 && Even(17) == 0x0000_0008 && Even(18) == 0x0000_0020 && Even(19) == 0x0000_0080;
    SquaredFour(16, c);
    Sqr20IsSquared(c >> 4);
  }

  lemma Sqr12IsSquared(c: bv32)
    ensures Sqr12(c) == Squared(12, c)
  {
    hide Squared, Four;
    assert Even(12) == 0xE13B_70F7 && Even(13) == 0x8AD9_58CF && Even(14) == 0x20BD_8EDE && Even(15) == 0x82F6_3B78;
    SquaredFour(12, c);
    Sqr16IsSquared(c >> 4);
  }

  lemma Sqr8IsSquared(c: bv32)
    ensures Sqr8(c) == Squared(8, c)
  {
    hide Squared, Four;
    assert Even(8) == 0x2745_30EE && Even(9) == 0x9D14_C3B8 && Even(10) == 0x7F8B_E302 && Even(11) == 0xFBC3_FAF9;
    SquaredFour(8, c);
    Sqr12IsSquared(c >> 4);
  }

  lemma Sqr4IsSquared(c: bv32)
    ensures Sqr4(c) == Squared(4, c)
  {
    hide Squared, Four;
    assert Even(4) == 0x4F6F_520D && Even(5) == 0x3851_3EC5 && Even(6) == 0xE144_FB14 && Even(7) == 0x8B27_7743;
    SquaredFour(4, c);
    Sqr8IsSquared(c >> 4);
  }

  lemma SqrIsSquared(c: bv32)
    ensures Sqr(c) == Squared(0, c)
  {
    hide Squared, Four;
    assert Even(0) == 0xBF67_2381 && Even(1) == 0xF644_63E6 && Even(2) == 0xD725_148B && Even(3) == 0x52A0_C93F;
    SquaredFour(0, c);
    Sqr4IsSquared(c >> 4);
  }

  lemma NoSquares(c: bv32)
    ensures Squared(32, c) == 0
  {
  }

  lemma SqrIs(c: bv32)
    ensures Num(Sqr(c)) == Square(0, Num(c))
  {
    hide Sqr, Squared, Square, Value;
    SqrIsSquared(c);
    SquaredIs(0, c);
  }

  lemma SquarePolynomial()
    ensures Square(0, POLYNOMIAL) == Power(64)
  {
    hide Sqr, Square, Bits, Num, Step, Even;
    SqrIs(0x82F6_3B78);
    PolynomialValue();
    EvenIsPower(0);
    StepIsBit(Even(0));
    StepIsBit(Step(Even(0)));
    TwoBits(Power(62));
    PowerStep(2, 62);
    PolynomialSquared();
  }

  lemma PolynomialSquared()
    ensures Sqr(0x82F6_3B78) == Step(Step(Even(0)))
  {
  }

  // --------------------------------------------------------- high powers

  /** The vector is the power with exponent `n`. */
  ghost predicate Is(n: nat, c: bv32) { Num(c) == Power(n) }

  /** Multiplying the vector by that power gives 1. */
  ghost predicate Inverts(n: nat, c: bv32) { Bits(n, Num(c)) == ONE }

  lemma SquareIsOne()
    ensures Square(0, ONE) == ONE
  {
    hide Square, Pow2;
    Pow32();
    SquareOne(0);
    assert 31 - 0 == 31;
  }

  lemma Twice(n: nat, c: bv32, d: bv32)
    requires Is(n, c) && d == Sqr(c)
    ensures Is(2 * n, d)
  {
    hide Num, Square, Bits, Sqr;
    SqrIs(c);
    SquareBits(n, ONE);
    SquareIsOne();
  }

  lemma Next(n: nat, c: bv32, d: bv32)
    requires Is(n, c) && d == Step(c)
    ensures Is(n + 1, d)
  {
    hide Num, Step;
    StepIsBit(c);
    PowerStep(1, n);
    assert Bits(1, Power(n)) == Bits(0, Bit(Power(n)));
  }

  lemma TwiceNext(n: nat, c: bv32, d: bv32)
    requires Is(n, c) && d == Step(Sqr(c))
    ensures Is(2 * n + 1, d)
  {
    hide Is, Step, Sqr;
    Twice(n, c, Sqr(c));
    Next(2 * n, Sqr(c), d);
  }

  lemma InvertsTwice(n: nat, c: bv32, d: bv32)
    requires Inverts(n, c) && d == Sqr(c)
    ensures Inverts(2 * n, d)
  {
    hide Num, Square, Bits, Sqr;
    SqrIs(c);
    SquareBits(n, Num(c));
    SquareIsOne();
  }

  lemma InvertsTwiceNext(n: nat, c: bv32, d: bv32)
    requires Inverts(n, c) && Step(d) == Sqr(c)
    ensures Inverts(2 * n + 1, d)
  {
    hide Num, Step, Sqr;
    InvertsTwice(n, c, Sqr(c));
    StepIsBit(d);
    assert Bits(2 * n + 1, Num(d)) == Bits(2 * n, Bit(Num(d)));
  }

  lemma FirstPower()
    ensures Is(1, 0x4000_0000)
  {
    hide Step, Num;
    OneValue();
    assert Power(0) == ONE;
    Halved();
    Next(0, 0x8000_0000, 0x4000_0000);
  }

  lemma Halved()
    ensures Step(0x8000_0000) == 0x4000_0000 && Step(0x05EC_76F1) == 0x8000_0000
  {
  }

  lemma FirstInverse()
    ensures Inverts(1, 0x05EC_76F1)
  {
    hide Step, Num;
    OneValue();
    Halved();
    StepIsBit(0x05EC_76F1);
    assert Bits(1, Num(0x05EC_76F1)) == Bits(0, Bit(Num(0x05EC_76F1)));
  }

  lemma Power4048()
    ensures Is(4048, 0x2004_02EE)
  {
    hide Is;
    FirstPower();
    TwiceNext(1, 0x4000_0000, 0x1000_0000);
    TwiceNext(3, 0x1000_0000, 0x0100_0000);
    TwiceNext(7, 0x0100_0000, 0x0001_0000);
    TwiceNext(15, 0x0001_0000, 0x0000_0001);
    TwiceNext(31, 0x0000_0001, 0xDD45_AAB8);
    Twice(63, 0xDD45_AAB8, 0x62E3_A860);
    TwiceNext(126, 0x62E3_A860, 0x838E_C132);
    Twice(253, 0x838E_C132, 0x847E_0ACE);
    Twice(506, 0x847E_0ACE, 0xFF55_21EC);
    Twice(1012, 0xFF55_21EC, 0xD081_2525);
    Twice(2024, 0xD081_2525, 0x2004_02EE);
  }

  lemma Inverse4032()
    ensures Inverts(4032, 0xAB9C_02F2)
  {
    hide Inverts;
    FirstInverse();
    InvertsTwiceNext(1, 0x05EC_76F1, 0x17B1_DBC4);
    InvertsTwiceNext(3, 0x17B1_DBC4, 0x7EF1_CAB1);
    InvertsTwiceNext(7, 0x7EF1_CAB1, 0x5F78_4B2F);
    InvertsTwiceNext(15, 0x5F78_4B2F, 0x6B08_6B3F);
    InvertsTwiceNext(31, 0x6B08_6B3F, 0xF1C8_5C4A);
    InvertsTwice(63, 0xF1C8_5C4A, 0xAA6C_169F);
    InvertsTwice(126, 0xAA6C_169F, 0x83C2_C070);
    InvertsTwice(252, 0x83C2_C070, 0xB43B_8272);
    InvertsTwice(504, 0xB43B_8272, 0xF5FC_0670);
    InvertsTwice(1008, 0xF5FC_0670, 0xDEC7_1DC6);
    InvertsTwice(2016, 0xDEC7_1DC6, 0xAB9C_02F2);
  }

  lemma Power8144()
    ensures Is(8144, 0x29D0_A6B3)
  {
    hide Is;
    FirstPower();
    TwiceNext(1, 0x4000_0000, 0x1000_0000);
    TwiceNext(3, 0x1000_0000, 0x0100_0000);
    TwiceNext(7, 0x0100_0000, 0x0001_0000);
    TwiceNext(15, 0x0001_0000, 0x0000_0001);
    TwiceNext(31, 0x0000_0001, 0xDD45_AAB8);
    TwiceNext(63, 0xDD45_AAB8, 0x3171_D430);
    Twice(127, 0x3171_D430, 0x41C7_6099);
    TwiceNext(254, 0x41C7_6099, 0xD302_E79D);
    Twice(509, 0xD302_E79D, 0xB1E8_264E);
    Twice(1018, 0xB1E8_264E, 0x70C1_95B3);
    Twice(2036, 0x70C1_95B3, 0xA439_638D);
    Twice(4072, 0xA439_638D, 0x29D0_A6B3);
  }

  lemma Inverse8128()
    ensures Inverts(8128, 0x9409_6402)
  {
    hide Inverts;
    FirstInverse();
    InvertsTwiceNext(1, 0x05EC_76F1, 0x17B1_DBC4);
    InvertsTwiceNext(3, 0x17B1_DBC4, 0x7EF1_CAB1);
    InvertsTwiceNext(7, 0x7EF1_CAB1, 0x5F78_4B2F);
    InvertsTwiceNext(15, 0x5F78_4B2F, 0x6B08_6B3F);
    InvertsTwiceNext(31, 0x6B08_6B3F, 0xF1C8_5C4A);
    InvertsTwiceNext(63, 0xF1C8_5C4A, 0x5134_5BCF);
    InvertsTwice(127, 0x5134_5BCF, 0x04D3_EC22);
    InvertsTwice(254, 0x04D3_EC22, 0x62EF_0BBB);
    InvertsTwice(508, 0x62EF_0BBB, 0x8E00_33D6);
    InvertsTwice(1016, 0x8E00_33D6, 0x5576_7259);
    InvertsTwice(2032, 0x5576_7259, 0xB785_0CD1);
    InvertsTwice(4064, 0xB785_0CD1, 0x9409_6402);
  }

  lemma Power24528()
    ensures Is(24528, 0x5D08_A8A3)
  {
    hide Is;
    FirstPower();
    Twice(1, 0x4000_0000, 0x2000_0000);
    TwiceNext(2, 0x2000_0000, 0x0400_0000);
    TwiceNext(5, 0x0400_0000, 0x0010_0000);
    TwiceNext(11, 0x0010_0000, 0x0000_0100);
    TwiceNext(23, 0x0000_0100, 0x13A2_9877);
    TwiceNext(47, 0x13A2_9877, 0x493C_7D27);
    TwiceNext(95, 0x493C_7D27, 0x3743_F7BD);
    TwiceNext(191, 0x3743_F7BD, 0x6051_243F);
    Twice(383, 0x6051_243F, 0x66CA_68D4);
    TwiceNext(766, 0x66CA_68D4, 0xC725_1820);
    Twice(1533, 0xC725_1820, 0x8283_BCE9);
    Twice(3066, 0x8283_BCE9, 0x52A1_D29D);
    Twice(6132, 0x52A1_D29D, 0x02C6_5590);
    Twice(12264, 0x02C6_5590, 0x5D08_A8A3);
  }

  lemma Inverse24512()
    ensures Inverts(24512, 0x5E6D_8D2A)
  {
    hide Inverts;
    FirstInverse();
    InvertsTwice(1, 0x05EC_76F1, 0x0BD8_EDE2);
    InvertsTwiceNext(2, 0x0BD8_EDE2, 0x5EC7_6F10);
    InvertsTwiceNext(5, 0x5EC7_6F10, 0xF699_EBC7);
    InvertsTwiceNext(11, 0xF699_EBC7, 0x6E9B_7DFE);
    InvertsTwiceNext(23, 0x6E9B_7DFE, 0x5920_D199);
    InvertsTwiceNext(47, 0x5920_D199, 0xDE70_649E);
    InvertsTwiceNext(95, 0xDE70_649E, 0x8471_7EEF);
    InvertsTwiceNext(191, 0x8471_7EEF, 0x996E_F3CC);
    InvertsTwice(383, 0x996E_F3CC, 0x1E9C_1783);
    InvertsTwice(766, 0x1E9C_1783, 0xE44D_D527);
    InvertsTwice(1532, 0xE44D_D527, 0x15C9_5C36);
    InvertsTwice(3064, 0x15C9_5C36, 0x11B3_5CF5);
    InvertsTwice(6128, 0x11B3_5CF5, 0x32D3_BA4D);
    InvertsTwice(12256, 0x32D3_BA4D, 0x5E6D_8D2A);
  }
}
