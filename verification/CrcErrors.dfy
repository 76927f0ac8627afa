/** Which errors of up to three bytes, followed by unchanged bytes, leave little of
    themselves in the checksum: those that a change inside the stored checksum
    could make up for. */
module CrcErrors {
  import opened Rounding
  import opened Objects
  import opened Crc32c
  import opened CrcPowers

  // ------------------------------------------------------- multiplication

  /** Product of the polynomial with coefficients in the low `k` bits of `a`, bit 0
      being the highest power, with `r`. */
  function Mul(k: nat, a: nat, r: word): word {
    if k == 0 then 0 else XorW(Pick(a % 2 == 1, Bits(k - 1, r)), Mul(k - 1, a / 2, r))
  }

  lemma BitsSwap(m: nat, n: nat, r: word)
    ensures Bits(m, Bits(n, r)) == Bits(n, Bits(m, r))
  {
    BitsAdd(n, m, r);
    BitsAdd(m, n, r);
  }

  lemma {:induction false} MulBits(k: nat, a: nat, r: word, n: nat)
    ensures Bits(n, Mul(k, a, r)) == Mul(k, a, Bits(n, r))
  {
    hide Xor, Bits;
    StaysZero(n);
    if k > 0 {
      MulBits(k - 1, a / 2, r, n);
      BitsSwap(n, k - 1, r);
      BitsLinear(n, Pick(a % 2 == 1, Bits(k - 1, r)), Mul(k - 1, a / 2, r));
    }
  }

  lemma UnitIsPower()
    ensures Power(31) == 1 && Power(24) == 0x80
  {
    Pow32();
    BitsOfMultiple(31, 1);
    BitsOfMultiple(24, 0x80);
  }

  lemma SplitBit(a: nat)
    ensures a == Xor(a % 2, 2 * (a / 2))
  {
    hide Xor;
    XorDisjoint(1, a % 2, a / 2);
    assert Pow2(1) == 2 * Pow2(0);
  }

  /** Bit steps on a word of `k` bits multiply it with a power. */
  lemma {:induction false} MulIs(k: nat, a: word, n: nat)
    requires k <= n && k <= 32 && a < Pow2(k)
    ensures Bits(n, a) == Mul(k, a, Power(n + 32 - k))
    decreases k
  {
    hide Xor;
    if k == 0 {
      StaysZero(n);
    } else {
      var q := a / 2;
      MulIs(k - 1, q, n - 1);
      SplitBit(a);
      LinearPair(n, a % 2, q);
      UnitIsPower();
      PowerStep(n, 31);
      PowerStep(k - 1, n + 32 - k);
      StaysZero(n);
    }
  }

  lemma LinearPair(n: nat, p: nat, q: nat)
    requires 0 < n && p < 2 && 2 * q < TWO_32
    ensures Bits(n, XorW(p, 2 * q)) == XorW(Bits(n, p), Bits(n - 1, q))
  {
    hide Xor;
    BitsLinear(n, p, 2 * q);
    assert Bit(2 * q) == q;
  }

  /** A byte times 1 is that byte as the highest one. */
  lemma MulOne(t: byte)
    ensures 0x100_0000 * t < TWO_32 && Mul(8, t, ONE) == 0x100_0000 * t
  {
    hide Mul, Bits;
    Pow32();
    MulIs(8, t, 8);
    MulBits(8, t, Power(24), 8);
    PowerStep(8, 24);
    BitsInjective(8, t, Mul(8, t, Power(24)));
    MulBits(8, t, ONE, 24);
    Pow24();
    BitsOfMultiple(24, t);
    BitsInjective(24, 0x100_0000 * t, Mul(8, t, ONE));
  }

  lemma Pow24()
    ensures Pow2(24) == 0x100_0000 && Pow2(16) == 0x1_0000
  {
    Pow32();
    assert Pow2(12) == 4096;
    assert Pow2(16) == 0x1_0000;
    assert Pow2(20) == 0x10_0000;
  }

  // ------------------------------------------------------------- vectors

  function Steps(n: nat, c: bv32): bv32 { if n == 0 then c else Steps(n - 1, Step(c)) }

  lemma {:induction false} StepsIs(n: nat, c: bv32)
    ensures Num(Steps(n, c)) == Bits(n, Num(c))
  {
    hide Num, Step, Bit;
    if n > 0 {
      StepIsBit(c);
      StepsIs(n - 1, Step(c));
    }
  }

  function Spread(k: nat, c: bv32, r: bv32): bv32 {
    if k == 0 then 0 else Plus(One(c, Steps(k - 1, r)), Spread(k - 1, c >> 1, r))
  }

  lemma {:induction false} SpreadIs(k: nat, c: bv32, r: bv32)
    ensures Num(Spread(k, c, r)) == Mul(k, Num(c), Num(r))
  {
    hide Num, Plus, One, Steps, Xor, Bits;
    ZeroNum();
    if k > 0 {
      Parity(c);
      SpreadIs(k - 1, c >> 1, r);
      StepsIs(k - 1, r);
      OneIsPick(c, Steps(k - 1, r));
      NumXor(One(c, Steps(k - 1, r)), Spread(k - 1, c >> 1, r));
    }
  }

  /** Every word is the number of some vector. */
  function Vector(k: nat, a: nat, r: bv32): bv32 {
    if k == 0 then 0 else Plus(if a % 2 == 1 then Steps(k - 1, r) else 0, Vector(k - 1, a / 2, r))
  }

  lemma {:induction false} VectorIs(k: nat, a: nat, r: bv32)
    ensures Num(Vector(k, a, r)) == Mul(k, a, Num(r))
  {
    hide Num, Plus, Steps, Xor, Bits;
    ZeroNum();
    if k > 0 {
      VectorIs(k - 1, a / 2, r);
      StepsIs(k - 1, r);
      NumXor(if a % 2 == 1 then Steps(k - 1, r) else 0, Vector(k - 1, a / 2, r));
    }
  }

  lemma SomeVector(w: word) returns (c: bv32)
    ensures Num(c) == w
  {
    hide Mul, Vector, Bits, Num;
    c := Vector(32, w, 0x8000_0000);
    VectorIs(32, w, 0x8000_0000);
    OneValue();
    Pow32();
    MulIs(32, w, 32);
    MulBits(32, w, ONE, 32);
    BitsInjective(32, w, Mul(32, w, ONE));
  }

  lemma {:induction false} StepsLast(n: nat, c: bv32)
    ensures Steps(n + 1, c) == Step(Steps(n, c))
  {
    hide Step;
    if n > 0 { StepsLast(n - 1, Step(c)); }
  }

  lemma {:induction false} StepsAdd(m: nat, n: nat, c: bv32)
    ensures Steps(m + n, c) == Steps(n, Steps(m, c))
  {
    hide Step;
    if m > 0 { StepsAdd(m - 1, n, Step(c)); }
  }

  lemma SpreadFour(k: nat, c: bv32, r: bv32)
    ensures Spread(k + 4, c, r)
         == Four(c, Steps(k + 3, r), Steps(k + 2, r), Steps(k + 1, r), Steps(k, r), Spread(k, c >> 4, r))
  {
    hide One, Steps, Plus;
    assert Spread(k + 3, c >> 1, r) == Plus(One(c >> 1, Steps(k + 2, r)), Spread(k + 2, c >> 2, r));
    assert Spread(k + 2, c >> 2, r) == Plus(One(c >> 2, Steps(k + 1, r)), Spread(k + 1, c >> 3, r));
    assert Spread(k + 1, c >> 3, r) == Plus(One(c >> 3, Steps(k, r)), Spread(k, c >> 4, r));
  }

  /** Eight coefficients without recursion, and what the others add. */
  function Eight(c: bv32, r: bv32, rest: bv32): bv32 {
    var r1 := Step(r);
    var r2 := Step(r1);
    var r3 := Step(r2);
    var r4 := Step(r3);
    var r5 := Step(r4);
    var r6 := Step(r5);
    Four(c, Step(r6), r6, r5, r4, Four(c >> 4, r3, r2, r1, r, rest))
  }

  lemma SevenSteps(r: bv32)
    ensures Steps(0, r) == r
    ensures Steps(1, r) == Step(r) && Steps(2, r) == Step(Steps(1, r)) && Steps(3, r) == Step(Steps(2, r))
    ensures Steps(4, r) == Step(Steps(3, r)) && Steps(5, r) == Step(Steps(4, r))
    ensures Steps(6, r) == Step(Steps(5, r)) && Steps(7, r) == Step(Steps(6, r))
  {
    hide Step;
    StepsLast(1, r);
    StepsLast(2, r);
    StepsLast(3, r);
    StepsLast(4, r);
    StepsLast(5, r);
    StepsLast(6, r);
  }

  lemma SpreadEight(k: nat, c: bv32, r: bv32)
    ensures Spread(k + 8, c, r) == Eight(c, Steps(k, r), Spread(k, c >> 8, r))
  {
    hide Steps, Spread, Four, Step;
    SpreadFour(k + 4, c, r);
    SpreadFour(k, c >> 4, r);
    ShiftTwice(c);
    SevenSteps(Steps(k, r));
    StepsAdd(k, 1, r);
    StepsAdd(k, 2, r);
    StepsAdd(k, 3, r);
    StepsAdd(k, 4, r);
    StepsAdd(k, 5, r);
    StepsAdd(k, 6, r);
    StepsAdd(k, 7, r);
  }

  lemma NoSpread(c: bv32, r: bv32)
    ensures Spread(0, c, r) == 0 && Steps(0, r) == r
  {
  }

  lemma SpreadByte(c: bv32, r: bv32)
    ensures Spread(8, c, r) == Eight(c, r, 0)
  {
    hide Spread, Eight, Steps;
    SpreadEight(0, c, r);
    NoSpread(c >> 8, r);
  }

  lemma SpreadTwoBytes(c: bv32, r: bv32)
    ensures Spread(16, c, r) == Eight(c, Steps(8, r), Eight(c >> 8, r, 0))
  {
    hide Spread, Eight, Steps;
    SpreadEight(8, c, r);
    SpreadByte(c >> 8, r);
  }

  // ------------------------------------------ the three lengths that occur

  lemma EightLater4032()
    ensures Steps(8, 0x2004_02EE) == 0x4F68_133F
  {
    hide Steps;
    SevenSteps(0x2004_02EE);
    StepsLast(7, 0x2004_02EE);
  }

  /** One byte cannot leave a clear low byte. */
  lemma OneByte4032(c: bv32)
    requires c <= 0xFF && c & 1 == 0 && Eight(c, 0x4F68_133F, 0) & 0xFF == 0
    ensures c == 0
  {
  }

  lemma Table4032(c: bv32)
    ensures Eight(c, 0x4F68_133F, Eight(c >> 8, 0x2004_02EE, 0)) ==
      Four(c, 0xDD7E_3B0C, 0xBF10_00E9, 0x7BCC_7723, 0xF798_EE46,
        Four(c >> 4, 0xEADD_AA7D, 0xD057_220B, 0xA542_32E7, 0x4F68_133F,
          Four(c >> 8, 0x9ED0_267E, 0x384C_3A0D, 0x7098_741A, 0xE130_E834,
            Four((c >> 8) >> 4, 0xC78D_A699, 0x8AF7_3BC3, 0x1002_0177, 0x2004_02EE, 0))))
  {
    hide Four;
  }

  lemma TwoBytesLow4032(c: bv32)
    requires c <= 0x7FFF && c & 1 == 0 && Eight(c, 0x4F68_133F, Eight(c >> 8, 0x2004_02EE, 0)) & 0xFFFF == 0
    ensures c == 0 || c == 0x78E6
  {
    hide Eight;
    Table4032(c);
  }

  lemma TwoBytesHigh4032(c: bv32)
    requires 0x8000 <= c <= 0xFFFF && c & 1 == 0 && Eight(c, 0x4F68_133F, Eight(c >> 8, 0x2004_02EE, 0)) & 0xFFFF == 0
    ensures c == 0x892A || c == 0xF1CC
  {
    hide Eight;
    Table4032(c);
  }

  /** Two bytes leave two clear low bytes in no other way than these. */
  lemma TwoBytes4032(c: bv32)
    requires c <= 0xFFFF && c & 1 == 0 && Eight(c, 0x4F68_133F, Eight(c >> 8, 0x2004_02EE, 0)) & 0xFFFF == 0
    ensures c == 0 || c == 0x78E6 || c == 0x892A || c == 0xF1CC
  {
    hide Eight;
    if c <= 0x7FFF {
      TwoBytesLow4032(c);
    } else {
      TwoBytesHigh4032(c);
    }
  }

  lemma Cancelled4032()
    ensures Eight(0x78E6, 0x4F68_133F, Eight(0x78E6 >> 8, 0x2004_02EE, 0)) == 0x42E9_0000
    ensures Eight(0x892A, 0x4F68_133F, Eight(0x892A >> 8, 0x2004_02EE, 0)) == 0xC73B_0000
    ensures Eight(0xF1CC, 0x4F68_133F, Eight(0xF1CC >> 8, 0x2004_02EE, 0)) == 0x85D2_0000
  {
  }

  /** No error that leaves only the highest byte fits into three bytes. */
  lemma ThreeBytes4032(t: bv32)
    requires t <= 0xFF && Eight(t, 0xAB9C_02F2, 0) & 0xFF00_0001 == 0
    ensures t == 0
  {
  }

  lemma EightLater8128()
    ensures Steps(8, 0x29D0_A6B3) == 0xA16C_519B
  {
    hide Steps;
    SevenSteps(0x29D0_A6B3);
    StepsLast(7, 0x29D0_A6B3);
  }

  /** One byte cannot leave a clear low byte. */
  lemma OneByte8128(c: bv32)
    requires c <= 0xFF && c & 1 == 0 && Eight(c, 0xA16C_519B, 0) & 0xFF == 0
    ensures c == 0
  {
  }

  lemma Table8128(c: bv32)
    ensures Eight(c, 0xA16C_519B, Eight(c >> 8, 0x29D0_A6B3, 0)) ==
      Four(c, 0x1700_76FA, 0x2E00_EDF4, 0x5C01_DBE8, 0xB803_B7D0,
        Four(c >> 4, 0x75EB_1951, 0xEBD6_32A2, 0xD240_13B5, 0xA16C_519B,
          Four(c >> 8, 0x4734_D5C7, 0x8E69_AB8E, 0x193F_21ED, 0x327E_43DA,
            Four((c >> 8) >> 4, 0x64FC_87B4, 0xC9F9_0F68, 0x961E_6821, 0x29D0_A6B3, 0))))
  {
    hide Four;
  }

  lemma TwoBytesLow8128(c: bv32)
    requires c <= 0x7FFF && c & 1 == 0 && Eight(c, 0xA16C_519B, Eight(c >> 8, 0x29D0_A6B3, 0)) & 0xFFFF == 0
    ensures c == 0
  {
    hide Eight;
    Table8128(c);
  }

  lemma TwoBytesHigh8128(c: bv32)
    requires 0x8000 <= c <= 0xFFFF && c & 1 == 0 && Eight(c, 0xA16C_519B, Eight(c >> 8, 0x29D0_A6B3, 0)) & 0xFFFF == 0
    ensures c == 0x96E4
  {
    hide Eight;
    Table8128(c);
  }

  /** Two bytes leave two clear low bytes in no other way than this. */
  lemma TwoBytes8128(c: bv32)
    requires c <= 0xFFFF && c & 1 == 0 && Eight(c, 0xA16C_519B, Eight(c >> 8, 0x29D0_A6B3, 0)) & 0xFFFF == 0
    ensures c == 0 || c == 0x96E4
  {
    hide Eight;
    if c <= 0x7FFF {
      TwoBytesLow8128(c);
    } else {
      TwoBytesHigh8128(c);
    }
  }

  lemma Cancelled8128()
    ensures Eight(0x96E4, 0xA16C_519B, Eight(0x96E4 >> 8, 0x29D0_A6B3, 0)) == 0x1E81_0000
  {
  }

  /** No error that leaves only the highest byte fits into three bytes. */
  lemma ThreeBytes8128(t: bv32)
    requires t <= 0xFF && Eight(t, 0x9409_6402, 0) & 0xFF00_0001 == 0
    ensures t == 0
  {
  }

  lemma EightLater24512()
    ensures Steps(8, 0x5D08_A8A3) == 0xB146_4EFA
  {
    hide Steps;
    SevenSteps(0x5D08_A8A3);
    StepsLast(7, 0x5D08_A8A3);
  }

  /** One byte cannot leave a clear low byte. */
  lemma OneByte24512(c: bv32)
    requires c <= 0xFF && c & 1 == 0 && Eight(c, 0xB146_4EFA, 0) & 0xFF == 0
    ensures c == 0
  {
  }

  lemma Table24512(c: bv32)
    ensures Eight(c, 0xB146_4EFA, Eight(c >> 8, 0x5D08_A8A3, 0)) ==
      Four(c, 0x3596_74F7, 0x6B2C_E9EE, 0xD659_D3DC, 0xA95F_D149,
        Four(c >> 4, 0x5753_D463, 0xAEA7_A8C6, 0x58A3_277D, 0xB146_4EFA,
          Four(c >> 8, 0x6760_EB05, 0xCEC1_D60A, 0x986F_DAE5, 0x3533_C33B,
            Four((c >> 8) >> 4, 0x6A67_8676, 0xD4CF_0CEC, 0xAC72_6F29, 0x5D08_A8A3, 0))))
  {
    hide Four;
  }

  lemma TwoBytesLow24512(c: bv32)
    requires c <= 0x7FFF && c & 1 == 0 && Eight(c, 0xB146_4EFA, Eight(c >> 8, 0x5D08_A8A3, 0)) & 0xFFFF == 0
    ensures c == 0
  {
    hide Eight;
    Table24512(c);
  }

  lemma TwoBytesHigh24512(c: bv32)
    requires 0x8000 <= c <= 0xFFFF && c & 1 == 0 && Eight(c, 0xB146_4EFA, Eight(c >> 8, 0x5D08_A8A3, 0)) & 0xFFFF == 0
    ensures c == 0x9DA6
  {
    hide Eight;
    Table24512(c);
  }

  /** Two bytes leave two clear low bytes in no other way than this. */
  lemma TwoBytes24512(c: bv32)
    requires c <= 0xFFFF && c & 1 == 0 && Eight(c, 0xB146_4EFA, Eight(c >> 8, 0x5D08_A8A3, 0)) & 0xFFFF == 0
    ensures c == 0 || c == 0x9DA6
  {
    hide Eight;
    if c <= 0x7FFF {
      TwoBytesLow24512(c);
    } else {
      TwoBytesHigh24512(c);
    }
  }

  lemma Cancelled24512()
    ensures Eight(0x9DA6, 0xB146_4EFA, Eight(0x9DA6 >> 8, 0x5D08_A8A3, 0)) == 0x5FC7_0000
  {
  }

  /** No error that leaves only the highest byte fits into three bytes. */
  lemma ThreeBytes24512(t: bv32)
    requires t <= 0xFF && Eight(t, 0x5E6D_8D2A, 0) & 0xFF00_0001 == 0
    ensures t == 0
  {
  }

  // ------------------------------------------------------- numbers

  lemma ByteBound(c: bv32)
    ensures ByteAt(c) < 0x100
    ensures ByteAt(c) == 0 ==> c & 0xFF == 0
  {
  }

  /** What a small number says about the vector. */
  lemma SmallVector(c: bv32)
    ensures Num(c) < 0x100 ==> c <= 0xFF
    ensures Num(c) < 0x1_0000 ==> c <= 0xFFFF
    ensures Num(c) < 0x100_0000 ==> c <= 0xFF_FFFF
    ensures Num(c) % 0x100 == 0 ==> c & 0xFF == 0
    ensures Num(c) % 0x1_0000 == 0 ==> c & 0xFFFF == 0
  {
    hide Num, ByteAt;
    NumBytes(c);
    ByteBound(c);
    ByteBound(c >> 8);
    ByteBound(c >> 16);
    ByteBound((c >> 16) >> 8);
    FourBytes(c);
  }

  lemma FourBytes(c: bv32)
    ensures (c >> 16) & 0xFF == 0 && ((c >> 16) >> 8) & 0xFF == 0 ==> c <= 0xFFFF
    ensures (c >> 8) & 0xFF == 0 && c <= 0xFFFF ==> c <= 0xFF
    ensures ((c >> 16) >> 8) & 0xFF == 0 ==> c <= 0xFF_FFFF
    ensures c & 0xFF == 0 && (c >> 8) & 0xFF == 0 ==> c & 0xFFFF == 0
  {
  }

  /** The lengths of what is checksummed, for blocks of 512, of 1024 or 2048 and of
      4096 bytes. */
  predicate SumLen(n: nat) { n == 512 || n == 1024 || n == 3072 }

  /** Bit steps from the ninth byte of the checksummed part to its end. */
  function Run(n: nat): nat
    requires SumLen(n)
  {
    8 * (n - 8)
  }

  /** The two-byte errors `w` whose checksum `s` has two clear low bytes. */
  predicate Cancels(n: nat, w: nat, s: nat) {
    || (n == 512 && w == 0x78E6 && s == 0x42E9_0000)
    || (n == 512 && w == 0x892A && s == 0xC73B_0000)
    || (n == 512 && w == 0xF1CC && s == 0x85D2_0000)
    || (n == 1024 && w == 0x96E4 && s == 0x1E81_0000)
    || (n == 3072 && w == 0x9DA6 && s == 0x5FC7_0000)
  }

  /** The vector of what `k` bits become, given the vector of the power. */
  lemma SpreadOf(k: nat, c: bv32, r: bv32, n: nat)
    requires k <= n && k <= 32 && Num(c) < Pow2(k) && Is(n + 32 - k, r)
    ensures Num(Spread(k, c, r)) == Bits(n, Num(c))
  {
    hide Num, Spread, Mul, Bits;
    SpreadIs(k, c, r);
    MulIs(k, Num(c), n);
  }

  lemma LaterPower(n: nat, r: bv32, q: bv32)
    requires Is(n, r) && q == Steps(8, r)
    ensures Is(n + 8, q)
  {
    hide Num, Steps, Bits;
    StepsIs(8, r);
    PowerStep(8, n);
  }

  lemma Words78E6()
    ensures Num(0x78E6) == 0x78E6 && Num(0x42E9_0000) == 0x42E9_0000
  {
    hide Num;
    NumBytes(0x78E6);
    NumBytes(0x42E9_0000);
  }

  lemma Words892A()
    ensures Num(0x892A) == 0x892A && Num(0xC73B_0000) == 0xC73B_0000
  {
    hide Num;
    NumBytes(0x892A);
    NumBytes(0xC73B_0000);
  }

  lemma WordsF1CC()
    ensures Num(0xF1CC) == 0xF1CC && Num(0x85D2_0000) == 0x85D2_0000
  {
    hide Num;
    NumBytes(0xF1CC);
    NumBytes(0x85D2_0000);
  }

  lemma Words96E4()
    ensures Num(0x96E4) == 0x96E4 && Num(0x1E81_0000) == 0x1E81_0000
  {
    hide Num;
    NumBytes(0x96E4);
    NumBytes(0x1E81_0000);
  }

  lemma Words9DA6()
    ensures Num(0x9DA6) == 0x9DA6 && Num(0x5FC7_0000) == 0x5FC7_0000
  {
    hide Num;
    NumBytes(0x9DA6);
    NumBytes(0x5FC7_0000);
  }

  lemma OneByteRun512(w: byte)
    requires w % 2 == 0 && Bits(4032, w) % 0x100 == 0
    ensures w == 0
  {
    hide Num, Bits, Eight, Steps, Spread, Is, Pow2;
    var c := SomeVector(w);
    Pow32();
    Power4048();
    EightLater4032();
    LaterPower(4048, 0x2004_02EE, 0x4F68_133F);
    SpreadOf(8, c, 0x4F68_133F, 4032);
    SpreadByte(c, 0x4F68_133F);
    Parity(c);
    SmallVector(c);
    SmallVector(Eight(c, 0x4F68_133F, 0));
    OneByte4032(c);
    if w != 0 { ZeroNum(); }
  }

  lemma TwoByteRun512(w: nat)
    requires w < 0x1_0000 && w % 2 == 0 && Bits(4032, w) % 0x1_0000 == 0
    ensures w == 0 || Cancels(512, w, Bits(4032, w))
  {
    hide Num, Bits, Eight, Steps, Spread, Is, Pow2;
    var c := SomeVector(w);
    Pow24();
    TwoByteVector4032(c);
    Parity(c);
    SmallVector(c);
    SmallVector(Eight(c, 0x4F68_133F, Eight(c >> 8, 0x2004_02EE, 0)));
    TwoBytes4032(c);
    ZeroNum();
    Cancelled4032();
    Words78E6();
    Words892A();
    WordsF1CC();
  }

  lemma TwoByteVector4032(c: bv32)
    requires Num(c) < 0x1_0000
    ensures Num(Eight(c, 0x4F68_133F, Eight(c >> 8, 0x2004_02EE, 0))) == Bits(4032, Num(c))
  {
    hide Num, Bits, Eight, Steps, Spread, Is, Pow2;
    Pow24();
    Power4048();
    EightLater4032();
    SpreadOf(16, c, 0x2004_02EE, 4032);
    SpreadTwoBytes(c, 0x2004_02EE);
  }

  lemma ThreeByteRun512(w: nat)
    requires w < 0x100_0000 && w % 2 == 0 && Bits(4032, w) % 0x100_0000 == 0
    ensures w == 0
  {
    hide Num, Bits, Eight, Spread, Mul;
    var top: byte := Bits(4032, w) / 0x100_0000;
    var t := SomeVector(top);
    Inverse4032();
    SpreadIs(8, t, 0xAB9C_02F2);
    MulBits(8, top, Num(0xAB9C_02F2), 4032);
    MulOne(top);
    BitsInjective(4032, w, Num(Spread(8, t, 0xAB9C_02F2)));
    SpreadByte(t, 0xAB9C_02F2);
    var d := Eight(t, 0xAB9C_02F2, 0);
    Parity(d);
    SmallVector(d);
    SmallVector(t);
    NoHighest(d);
    ThreeBytes4032(t);
    ZeroNum();
    StaysZero(4032);
    BitsInjective(4032, w, 0);
  }

  lemma OneByteRun1024(w: byte)
    requires w % 2 == 0 && Bits(8128, w) % 0x100 == 0
    ensures w == 0
  {
    hide Num, Bits, Eight, Steps, Spread, Is, Pow2;
    var c := SomeVector(w);
    Pow32();
    Power8144();
    EightLater8128();
    LaterPower(8144, 0x29D0_A6B3, 0xA16C_519B);
    SpreadOf(8, c, 0xA16C_519B, 8128);
    SpreadByte(c, 0xA16C_519B);
    Parity(c);
    SmallVector(c);
    SmallVector(Eight(c, 0xA16C_519B, 0));
    OneByte8128(c);
    if w != 0 { ZeroNum(); }
  }

  lemma TwoByteRun1024(w: nat)
    requires w < 0x1_0000 && w % 2 == 0 && Bits(8128, w) % 0x1_0000 == 0
    ensures w == 0 || Cancels(1024, w, Bits(8128, w))
  {
    hide Num, Bits, Eight, Steps, Spread, Is, Pow2;
    var c := SomeVector(w);
    Pow24();
    TwoByteVector8128(c);
    Parity(c);
    SmallVector(c);
    SmallVector(Eight(c, 0xA16C_519B, Eight(c >> 8, 0x29D0_A6B3, 0)));
    TwoBytes8128(c);
    ZeroNum();
    Cancelled8128();
    Words96E4();
  }

  lemma TwoByteVector8128(c: bv32)
    requires Num(c) < 0x1_0000
    ensures Num(Eight(c, 0xA16C_519B, Eight(c >> 8, 0x29D0_A6B3, 0))) == Bits(8128, Num(c))
  {
    hide Num, Bits, Eight, Steps, Spread, Is, Pow2;
    Pow24();
    Power8144();
    EightLater8128();
    SpreadOf(16, c, 0x29D0_A6B3, 8128);
    SpreadTwoBytes(c, 0x29D0_A6B3);
  }

  lemma ThreeByteRun1024(w: nat)
    requires w < 0x100_0000 && w % 2 == 0 && Bits(8128, w) % 0x100_0000 == 0
    ensures w == 0
  {
    hide Num, Bits, Eight, Spread, Mul;
    var top: byte := Bits(8128, w) / 0x100_0000;
    var t := SomeVector(top);
    Inverse8128();
    SpreadIs(8, t, 0x9409_6402);
    MulBits(8, top, Num(0x9409_6402), 8128);
    MulOne(top);
    BitsInjective(8128, w, Num(Spread(8, t, 0x9409_6402)));
    SpreadByte(t, 0x9409_6402);
    var d := Eight(t, 0x9409_6402, 0);
    Parity(d);
    SmallVector(d);
    SmallVector(t);
    NoHighest(d);
    ThreeBytes8128(t);
    ZeroNum();
    StaysZero(8128);
    BitsInjective(8128, w, 0);
  }

  lemma OneByteRun3072(w: byte)
    requires w % 2 == 0 && Bits(24512, w) % 0x100 == 0
    ensures w == 0
  {
    hide Num, Bits, Eight, Steps, Spread, Is, Pow2;
    var c := SomeVector(w);
    Pow32();
    Power24528();
    EightLater24512();
    LaterPower(24528, 0x5D08_A8A3, 0xB146_4EFA);
    SpreadOf(8, c, 0xB146_4EFA, 24512);
    SpreadByte(c, 0xB146_4EFA);
    Parity(c);
    SmallVector(c);
    SmallVector(Eight(c, 0xB146_4EFA, 0));
    OneByte24512(c);
    if w != 0 { ZeroNum(); }
  }

  lemma TwoByteRun3072(w: nat)
    requires w < 0x1_0000 && w % 2 == 0 && Bits(24512, w) % 0x1_0000 == 0
    ensures w == 0 || Cancels(3072, w, Bits(24512, w))
  {
    hide Num, Bits, Eight, Steps, Spread, Is, Pow2;
    var c := SomeVector(w);
    Pow24();
    TwoByteVector24512(c);
    Parity(c);
    SmallVector(c);
    SmallVector(Eight(c, 0xB146_4EFA, Eight(c >> 8, 0x5D08_A8A3, 0)));
    TwoBytes24512(c);
    ZeroNum();
    Cancelled24512();
    Words9DA6();
  }

  lemma TwoByteVector24512(c: bv32)
    requires Num(c) < 0x1_0000
    ensures Num(Eight(c, 0xB146_4EFA, Eight(c >> 8, 0x5D08_A8A3, 0))) == Bits(24512, Num(c))
  {
    hide Num, Bits, Eight, Steps, Spread, Is, Pow2;
    Pow24();
    Power24528();
    EightLater24512();
    SpreadOf(16, c, 0x5D08_A8A3, 24512);
    SpreadTwoBytes(c, 0x5D08_A8A3);
  }

  lemma ThreeByteRun3072(w: nat)
    requires w < 0x100_0000 && w % 2 == 0 && Bits(24512, w) % 0x100_0000 == 0
    ensures w == 0
  {
    hide Num, Bits, Eight, Spread, Mul;
    var top: byte := Bits(24512, w) / 0x100_0000;
    var t := SomeVector(top);
    Inverse24512();
    SpreadIs(8, t, 0x5E6D_8D2A);
    MulBits(8, top, Num(0x5E6D_8D2A), 24512);
    MulOne(top);
    BitsInjective(24512, w, Num(Spread(8, t, 0x5E6D_8D2A)));
    SpreadByte(t, 0x5E6D_8D2A);
    var d := Eight(t, 0x5E6D_8D2A, 0);
    Parity(d);
    SmallVector(d);
    SmallVector(t);
    NoHighest(d);
    ThreeBytes24512(t);
    ZeroNum();
    StaysZero(24512);
    BitsInjective(24512, w, 0);
  }

  lemma NoHighest(d: bv32)
    ensures d <= 0xFF_FFFF && d & 1 == 0 ==> d & 0xFF00_0001 == 0
  {
  }

  // ------------------------------------------------------ the three kinds

  lemma OneByteRun(n: nat, w: byte)
    requires SumLen(n) && w % 2 == 0 && Bits(Run(n), w) % 0x100 == 0
    ensures w == 0
  {
    hide Bits;
    if n == 512 {
      OneByteRun512(w);
    } else if n == 1024 {
      OneByteRun1024(w);
    } else {
      OneByteRun3072(w);
    }
  }

  lemma TwoByteRun(n: nat, w: nat)
    requires SumLen(n) && w < 0x1_0000 && w % 2 == 0 && Bits(Run(n), w) % 0x1_0000 == 0
    ensures w == 0 || Cancels(n, w, Bits(Run(n), w))
  {
    hide Bits;
    if n == 512 {
      TwoByteRun512(w);
    } else if n == 1024 {
      TwoByteRun1024(w);
    } else {
      TwoByteRun3072(w);
    }
  }

  lemma ThreeByteRun(n: nat, w: nat)
    requires SumLen(n) && w < 0x100_0000 && w % 2 == 0 && Bits(Run(n), w) % 0x100_0000 == 0
    ensures w == 0
  {
    hide Bits;
    if n == 512 {
      ThreeByteRun512(w);
    } else if n == 1024 {
      ThreeByteRun1024(w);
    } else {
      ThreeByteRun3072(w);
    }
  }

  /** The listed errors have the listed checksums. */
  lemma CancelsIs(n: nat, w: nat, s: nat)
    requires Cancels(n, w, s)
    ensures SumLen(n) && w < 0x1_0000 && w % 2 == 0 && Bits(Run(n), w) == s
  {
    hide Num, Eight, Bits;
    if n == 512 {
      Cancelled4032();
      Words78E6();
      Words892A();
      WordsF1CC();
      TwoByteVector4032(0x78E6);
      TwoByteVector4032(0x892A);
      TwoByteVector4032(0xF1CC);
    } else if n == 1024 {
      Cancelled8128();
      Words96E4();
      TwoByteVector8128(0x96E4);
    } else {
      Cancelled24512();
      Words9DA6();
      TwoByteVector24512(0x9DA6);
    }
  }

  // ------------------------------------------------------ a known checksum

  function ByteStep(c: bv32): bv32 { Step(Step(Step(Step(Step(Step(Step(Step(c)))))))) }

  lemma EightSteps(c: bv32)
    ensures Steps(8, c) == ByteStep(c)
  {
    hide Step;
    SevenSteps(c);
    StepsLast(7, c);
  }

  /** The register after `n` bit steps from all ones on. */
  ghost predicate FromOnes(n: nat, c: bv32) { Bits(n, 0xFFFF_FFFF) == Num(c) }

  lemma NextEight(n: nat, c: bv32, d: bv32)
    requires FromOnes(n, c) && d == ByteStep(c)
    ensures FromOnes(n + 8, d)
  {
    hide Num, Steps, Bits, ByteStep;
    BitsAdd(n, 8, 0xFFFF_FFFF);
    StepsIs(8, c);
    EightSteps(c);
  }

  lemma FirstOnes()
    ensures FromOnes(0, 0xFFFF_FFFF)
  {
    hide Num;
    NumBytes(0xFFFF_FFFF);
  }

  lemma Ones64()
    ensures FromOnes(64, 0x73D7_4D75)
  {
    hide FromOnes;
    FirstOnes();
    NextEight(0, 0xFFFF_FFFF, 0xAD82_ACAE);
    NextEight(8, 0xAD82_ACAE, 0x0E9E_882D);
    NextEight(16, 0x0E9E_882D, 0x9F9B_5C85);
    NextEight(24, 0x9F9B_5C85, 0xB798_B438);
    NextEight(32, 0xB798_B438, 0xBA8D_89CA);
    NextEight(40, 0xBA8D_89CA, 0xA8D5_8375);
    NextEight(48, 0xA8D5_8375, 0x44C1_9592);
    NextEight(56, 0x44C1_9592, 0x73D7_4D75);
  }

  lemma Ones128()
    ensures FromOnes(128, 0xBD8F_6515)
  {
    hide FromOnes;
    Ones64();
    NextEight(64, 0x73D7_4D75, 0x441A_975C);
    NextEight(72, 0x441A_975C, 0x1C22_0F94);
    NextEight(80, 0x1C22_0F94, 0x552E_4907);
    NextEight(88, 0x552E_4907, 0xD49F_4AA2);
    NextEight(96, 0xD49F_4AA2, 0x43A4_5A1B);
    NextEight(104, 0x43A4_5A1B, 0x8994_C80E);
    NextEight(112, 0x8994_C80E, 0xACF1_2BEF);
    NextEight(120, 0xACF1_2BEF, 0xBD8F_6515);
  }

  lemma Ones192()
    ensures FromOnes(192, 0x7B04_1311)
  {
    hide FromOnes;
    Ones128();
    NextEight(128, 0xBD8F_6515, 0x2512_5C16);
    NextEight(136, 0x2512_5C16, 0x36DA_32DB);
    NextEight(144, 0x36DA_32DB, 0x4A6C_90A2);
    NextEight(152, 0x4A6C_90A2, 0x433A_A9C1);
    NextEight(160, 0x433A_A9C1, 0x31A5_9F6E);
    NextEight(168, 0x31A5_9F6E, 0xCD8F_89DA);
    NextEight(176, 0xCD8F_89DA, 0xB8FC_461A);
    NextEight(184, 0xB8FC_461A, 0x7B04_1311);
  }

  lemma Ones256()
    ensures FromOnes(256, 0x756E_C955)
  {
    hide FromOnes;
    Ones192();
    NextEight(192, 0x7B04_1311, 0xE24E_407F);
    NextEight(200, 0xE24E_407F, 0x2F69_2669);
    NextEight(208, 0x2F69_2669, 0x195B_2188);
    NextEight(216, 0x195B_2188, 0x0836_3896);
    NextEight(224, 0x0836_3896, 0xB401_2DC7);
    NextEight(232, 0xB401_2DC7, 0x17F3_4302);
    NextEight(240, 0x17F3_4302, 0xE12C_83B4);
    NextEight(248, 0xE12C_83B4, 0x756E_C955);
  }

  /** The first example of section B.4 of RFC 3720, 32 bytes of zeros, whose checksum is
      aa 36 91 8a: that is the complement of what the source computes. */
  lemma KnownChecksum()
    ensures Crc(0xFFFF_FFFF, seq(32, _ => 0)) == 0xFFFF_FFFF - 0x8A91_36AA
  {
    hide Num, Bits, Crc;
    Ones256();
    NumBytes(0x756E_C955);
    CrcZeros(0xFFFF_FFFF, 32);
    assert Zeros(32) == seq(32, _ => 0);
  }
}
