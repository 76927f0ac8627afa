/** Rounding and mask arithmetic of pkg/types/utils.go, and the boundary test
    of `BattachInternal` expressed through it.

    Offsets are naturals; the one subtraction of the source that can wrap in
    64 bits (`boff - 1` at offset zero) wraps here too. */
module Rounding {
  const TWO_64: nat := 0x1_0000_0000_0000_0000
  const TWO_32: nat := 0x1_0000_0000

  /** Conversion to `uint64`: reduction modulo 2^64. */
  function U64(x: int): nat { x % TWO_64 }

  /** Conversion to `uint32`: reduction modulo 2^32. */
  function U32(x: int): nat { x % TWO_32 }

  function Pow2(k: nat): (r: nat)
    ensures r > 0
  {
    if k == 0 then 1 else 2 * Pow2(k - 1)
  }

  /** The block sizes in use: 512, 1024, 2048 and 4096. */
  predicate ValidBits(bits: nat) { 9 <= bits <= 12 }

  lemma BlockSizes(bits: nat)
    requires ValidBits(bits)
    ensures Pow2(bits) == if bits == 9 then 512 else if bits == 10 then 1024 else if bits == 11 then 2048 else 4096
  {
    assert Pow2(4) == 16;
    assert Pow2(8) == 256;
    assert Pow2(9) == 512;
  }

  // ---------------------------------------------------------------- masks

  /** Bitwise AND of two naturals, bit by bit. */
  function BitAnd(x: nat, y: nat): nat {
    if x == 0 || y == 0 then 0
    else 2 * BitAnd(x / 2, y / 2) + (if x % 2 == 1 && y % 2 == 1 then 1 else 0)
  }

  /** Bitwise OR of two naturals, bit by bit. */
  function BitOr(x: nat, y: nat): nat
    decreases x + y
  {
    if x == 0 && y == 0 then 0
    else 2 * BitOr(x / 2, y / 2) + (if x % 2 == 1 || y % 2 == 1 then 1 else 0)
  }

  lemma HalvePow2(x: nat, k: nat)
    requires k > 0
    ensures (x / 2) % Pow2(k - 1) == (x % Pow2(k)) / 2
    ensures (x % Pow2(k)) % 2 == x % 2
  {
    var h := Pow2(k - 1);
    var q, r := x / Pow2(k), x % Pow2(k);
    assert x == q * (2 * h) + r;
    assert q * (2 * h) == 2 * (q * h);
    assert x / 2 == q * h + r / 2;
    ModUnique(x / 2, q, r / 2, h);
  }

  lemma ModUnique(x: int, q: int, r: int, d: int)
    requires d > 0 && 0 <= r < d && x == q * d + r
    ensures x / d == q && x % d == r
  {
    var q', r' := x / d, x % d;
    var e := q - q';
    assert e * d == r' - r by {
      assert x == q' * d + r';
      assert e * d == q * d - q' * d;
    }
    MulBound(e, d);
  }

  lemma MulBound(e: int, d: int)
    requires d > 0
    ensures e >= 1 ==> e * d >= d
    ensures e <= -1 ==> e * d <= -d
    ensures e == 0 ==> e * d == 0
  {
    if e >= 1 {
      assert e * d == (e - 1) * d + d;
    } else if e <= -1 {
      assert e * d == (e + 1) * d - d;
    }
  }

  lemma DivMod(x: int, d: int)
    requires d > 0
    ensures x == x / d * d + x % d && 0 <= x % d < d
    ensures x >= 0 ==> x / d >= 0 && x / d * d >= 0
  {
  }

  /** Masking with `blksiz - 1` is reduction modulo the block size. */
  lemma {:induction false} MaskIsMod(x: nat, k: nat)
    ensures BitAnd(x, Pow2(k) - 1) == x % Pow2(k)
  {
    if x == 0 {
      assert 0 % Pow2(k) == 0 by { ModUnique(0, 0, 0, Pow2(k)); }
    } else if k > 0 {
      MaskIsMod(x / 2, k - 1);
      HalvePow2(x, k);
      var m, r := Pow2(k) - 1, x % Pow2(k);
      assert m / 2 == Pow2(k - 1) - 1 && m % 2 == 1;
      assert BitAnd(x, m) == 2 * BitAnd(x / 2, m / 2) + x % 2;
      assert r == 2 * (r / 2) + r % 2;
    }
  }

  /** OR with `blksiz - 1` sets every low bit. */
  lemma {:induction false} OrMask(x: nat, k: nat)
    ensures BitOr(x, Pow2(k) - 1) == x - x % Pow2(k) + Pow2(k) - 1
    decreases k, x
  {
    if k == 0 {
      OrZero(x);
    } else {
      OrMask(x / 2, k - 1);
      HalvePow2(x, k);
      assert (Pow2(k) - 1) / 2 == Pow2(k - 1) - 1;
    }
  }

  lemma {:induction false} OrZero(x: nat)
    ensures BitOr(x, 0) == x
  {
    if x != 0 { OrZero(x / 2); }
  }

  /** `x & (blksiz - 1)`, in the form that `MaskIsMod` justifies. */
  function Mask(x: nat, bits: nat): nat { x % Pow2(bits) }

  // ------------------------------------------------------------- rounding

  function RoundUp(x: nat, y: nat): nat {
    if y == 0 then x
    else
      DivMod(x + (y - 1), y);
      (x + (y - 1)) / y * y
  }

  function RoundDown(x: nat, y: nat): nat
    requires y > 0
  {
    x - x % y
  }

  /** `Round_Up`: the mask form, with its 32-bit subtraction and addition. */
  function RoundUpMask(x: nat, y: nat): nat
    requires y > 0
  {
    U32(BitOr(U32(x - 1), y - 1) + 1)
  }

  /** Number of blocks that cover `off` bytes. */
  function BlkRoundUp(bits: nat, off: nat): nat {
    DivMod(RoundUp(off, Pow2(bits)), Pow2(bits));
    RoundUp(off, Pow2(bits)) / Pow2(bits)
  }

  function Cmpsgn(a: int, b: int): int { if a < b then -1 else if a > b then 1 else 0 }

  /** RoundUp is the least multiple of y that is not below x. */
  lemma RoundUpLeast(x: nat, y: nat)
    requires y > 0
    ensures x <= RoundUp(x, y) < x + y
    ensures RoundUp(x, y) % y == 0
    ensures forall m: nat :: m % y == 0 && x <= m ==> RoundUp(x, y) <= m
  {
    var q := (x + (y - 1)) / y;
    DivMod(x + (y - 1), y);
    ModUnique(q * y, q, 0, y);
    forall m: nat | m % y == 0 && x <= m ensures q * y <= m { LeastMultiple(x, y, m); }
  }

  lemma LeastMultiple(x: nat, y: nat, m: nat)
    requires y > 0 && m % y == 0 && x <= m
    ensures (x + (y - 1)) / y * y <= m
  {
    var q, k := (x + (y - 1)) / y, m / y;
    DivMod(x + (y - 1), y);
    DivMod(m, y);
    MulBound(q - k, y);
    assert (q - k) * y == q * y - k * y;
  }

  lemma ShiftDiv(x: int, k: int, d: int)
    requires d > 0
    ensures (x + k * d) / d == x / d + k
    ensures (x + k * d) % d == x % d
  {
    assert x + k * d == (x / d + k) * d + x % d;
    ModUnique(x + k * d, x / d + k, x % d, d);
  }

  lemma RoundUpShift(x: nat, k: int, y: nat)
    requires y > 0 && x + k * y >= 0
    ensures RoundUp(x + k * y, y) == RoundUp(x, y) + k * y
  {
    ShiftDiv(x + (y - 1), k, y);
    assert ((x + (y - 1)) / y + k) * y == (x + (y - 1)) / y * y + k * y;
  }

  lemma RoundUpMono(x: nat, x': nat, y: nat)
    requires y > 0 && x <= x'
    ensures RoundUp(x, y) <= RoundUp(x', y)
  {
    RoundUpLeast(x, y);
    RoundUpLeast(x', y);
  }

  lemma RoundUpPredecessor(x: nat, y: nat)
    requires x > 0 && y > 0
    ensures RoundUp(x, y) == x - 1 - (x - 1) % y + y
  {
    DivMod(x - 1, y);
    ShiftDiv(x - 1, 1, y);
    assert ((x - 1) / y + 1) * y == (x - 1) / y * y + y;
  }

  lemma OrRoundsUp(x: nat, bits: nat)
    requires x > 0
    ensures BitOr(x - 1, Pow2(bits) - 1) == RoundUp(x, Pow2(bits)) - 1
  {
    OrMask(x - 1, bits);
    RoundUpPredecessor(x, Pow2(bits));
  }

  lemma OrAllOnes(bits: nat)
    requires ValidBits(bits)
    ensures BitOr(TWO_32 - 1, Pow2(bits) - 1) == TWO_32 - 1
  {
    OrMask(TWO_32 - 1, bits);
    AllOnes(bits);
  }

  lemma RoundUpZero(y: nat)
    requires y > 0
    ensures RoundUp(0, y) == 0
  {
    ModUnique(y - 1, 0, y - 1, y);
  }

  lemma MaskForm(x: nat, y: nat, o: nat)
    requires y > 0 && x < TWO_32 && o < TWO_32
    requires o == BitOr(if x == 0 then TWO_32 - 1 else x - 1, y - 1)
    ensures RoundUpMask(x, y) == if o == TWO_32 - 1 then 0 else o + 1
  {
    assert U32(x - 1) == if x == 0 then TWO_32 - 1 else x - 1;
  }

  /** The two rounding functions of the source agree wherever 32 bits suffice. */
  lemma RoundUpFormsAgree(x: nat, bits: nat)
    requires ValidBits(bits) && x + Pow2(bits) < TWO_32
    ensures RoundUpMask(x, Pow2(bits)) == RoundUp(x, Pow2(bits))
  {
    hide BitOr, RoundUp, RoundUpMask, Pow2;
    if x == 0 {
      OrAllOnes(bits);
      RoundUpZero(Pow2(bits));
      MaskForm(0, Pow2(bits), TWO_32 - 1);
    } else {
      OrRoundsUp(x, bits);
      RoundUpLeast(x, Pow2(bits));
      MaskForm(x, Pow2(bits), RoundUp(x, Pow2(bits)) - 1);
    }
  }

  predicate Divides(a: nat, b: nat) { a > 0 && b % a == 0 }

  lemma MultipleOfDivisor(k: int, a: nat, b: nat)
    requires b > 0 && Divides(a, b)
    ensures (k * b) % a == 0
  {
    var c := b / a;
    assert b == c * a;
    assert k * b == (k * c) * a;
    ModUnique(k * b, k * c, 0, a);
  }

  lemma SumOfMultiples(x: int, y: int, a: nat)
    requires a > 0 && x % a == 0 && y % a == 0
    ensures (x + y) % a == 0
  {
    assert x + y == (x / a + y / a) * a;
    ModUnique(x + y, x / a + y / a, 0, a);
  }

  /** Rounding by a divisor of the block size ignores whole blocks. */
  lemma RoundUpInBlock(p: nat, q: int, a: nat, b: nat)
    requires b > 0 && Divides(a, b) && q * b + p >= 0
    ensures RoundUp(q * b + p, a) == q * b + RoundUp(p, a)
  {
    var c := b / a;
    assert b == c * a;
    assert q * b == (q * c) * a;
    RoundUpShift(p, q * c, a);
  }

  // ---------------------------------------------------- the boundary test

  /** End of the extent, in bytes from the start of the buffer block. */
  function ExtentEnd(bits: nat, off: nat): nat { BlkRoundUp(bits, off) * Pow2(bits) }

  lemma ExtentEndIsRoundUp(bits: nat, off: nat)
    ensures ExtentEnd(bits, off) == RoundUp(off, Pow2(bits))
    ensures off <= ExtentEnd(bits, off) < off + Pow2(bits)
  {
    var b := Pow2(bits);
    var q := (off + (b - 1)) / b;
    ModUnique(q * b, q, 0, b);
    RoundUpLeast(off, b);
  }

  lemma BlkRoundUpOf(bits: nat, off: nat, q: nat, p: nat)
    requires 0 < p <= Pow2(bits) && off == q * Pow2(bits) + p
    ensures BlkRoundUp(bits, off) == q + 1
    ensures ExtentEnd(bits, off) == q * Pow2(bits) + Pow2(bits)
  {
    var b := Pow2(bits);
    assert (q + 1) * b == q * b + b;
    ModUnique(off + (b - 1), q + 1, p - 1, b);
    ModUnique((q + 1) * b, q + 1, 0, b);
  }

  lemma BlkRoundUpZero(bits: nat)
    ensures BlkRoundUp(bits, 0) == 0
    ensures ExtentEnd(bits, 0) == 0
  {
    var b := Pow2(bits);
    ModUnique(b - 1, 0, b - 1, b);
    ModUnique(0, 0, 0, b);
  }

  lemma BlkRoundUpMono(bits: nat, x: nat, y: nat)
    requires x <= y
    ensures BlkRoundUp(bits, x) <= BlkRoundUp(bits, y)
  {
    ExtentEndIsRoundUp(bits, x);
    ExtentEndIsRoundUp(bits, y);
    RoundUpMono(x, y, Pow2(bits));
    ProductMono(BlkRoundUp(bits, x), BlkRoundUp(bits, y), Pow2(bits));
  }

  lemma ProductMono(i: int, j: int, d: int)
    requires d > 0 && i * d <= j * d
    ensures i <= j
  {
    MulBound(i - j, d);
    assert (i - j) * d == i * d - j * d;
  }

  lemma BlkRoundUpPositive(bits: nat, off: nat)
    requires off > 0
    ensures BlkRoundUp(bits, off) > 0
  {
    ExtentEndIsRoundUp(bits, off);
  }

  /** `((boff - 1) & blkmask) + 1`: the fill of the last block, a full block
      counting as `blksiz` and not as zero. At offset zero the subtraction wraps. */
  function LastFill(bits: nat, off: nat): nat { Mask(U64(off - 1), bits) + 1 }

  lemma U64Small(x: nat)
    requires x < TWO_64
    ensures U64(x) == x
  {
  }

  /** A subtraction that wrapped leaves all mask bits set. */
  lemma AllOnes(bits: nat)
    requires ValidBits(bits)
    ensures U64(-1) % Pow2(bits) == Pow2(bits) - 1
    ensures U32(-1) % Pow2(bits) == Pow2(bits) - 1
  {
    BlockSizes(bits);
    if bits == 9 {
    } else if bits == 10 {
    } else if bits == 11 {
    }
  }

  lemma LastFillPositive(bits: nat, off: nat)
    requires 0 < off < TWO_64
    ensures LastFill(bits, off) == (off - 1) % Pow2(bits) + 1
    ensures 0 < LastFill(bits, off) <= Pow2(bits)
    ensures off == (off - 1) / Pow2(bits) * Pow2(bits) + LastFill(bits, off)
    ensures (off - 1) / Pow2(bits) >= 0
  {
    U64Small(off - 1);
    DivMod(off - 1, Pow2(bits));
  }

  lemma LastFillEmpty(bits: nat)
    requires ValidBits(bits)
    ensures LastFill(bits, 0) == Pow2(bits)
    ensures BlkRoundUp(bits, 0) == 0 && ExtentEnd(bits, 0) == 0
  {
    AllOnes(bits);
    BlkRoundUpZero(bits);
  }

  /** Every offset is `q` whole blocks and the fill of the last one, where an
      empty buffer block counts as minus one block and a full one. */
  lemma LastFillSplit(bits: nat, off: nat) returns (q: int)
    requires ValidBits(bits) && off < TWO_64
    ensures off == q * Pow2(bits) + LastFill(bits, off)
    ensures 0 < LastFill(bits, off) <= Pow2(bits)
    ensures BlkRoundUp(bits, off) == q + 1
    ensures ExtentEnd(bits, off) == q * Pow2(bits) + Pow2(bits)
    ensures off > 0 ==> q >= 0
  {
    hide BlkRoundUp, ExtentEnd, LastFill, Pow2;
    if off == 0 {
      q := -1;
      LastFillEmpty(bits);
      MinusOne(Pow2(bits));
    } else {
      q := (off - 1) / Pow2(bits);
      LastFillPositive(bits, off);
      BlkRoundUpOf(bits, off, q, LastFill(bits, off));
    }
  }

  lemma MinusOne(d: nat)
    ensures -1 * d == 0 - d
  {
  }

  /** The sign that `BattachInternal` computes from in-block quantities. */
  function Oob(bits: nat, off: nat, incr: nat, align: nat, extra: nat): int {
    Cmpsgn(RoundUp(LastFill(bits, off), align) + incr + extra, Pow2(bits))
  }

  /** The in-block rounding differs from the global one by exactly the base of
      the last block, also at offset zero. */
  lemma InBlockRounding(bits: nat, off: nat, align: nat)
    requires ValidBits(bits) && off < TWO_64 && Divides(align, Pow2(bits))
    ensures RoundUp(off, align) - RoundUp(LastFill(bits, off), align) == ExtentEnd(bits, off) - Pow2(bits)
    ensures RoundUp(off, align) <= ExtentEnd(bits, off)
  {
    var q := LastFillSplit(bits, off);
    RoundUpInBlock(LastFill(bits, off), q, align, Pow2(bits));
    RoundUpLeast(LastFill(bits, off), align);
  }

  /** The boundary test is exact: its sign compares the end of the request with
      the end of the extent the block already has. */
  lemma BoundaryTestExact(bits: nat, off: nat, incr: nat, align: nat, extra: nat)
    requires ValidBits(bits) && off < TWO_64 && Divides(align, Pow2(bits))
    ensures Oob(bits, off, incr, align, extra)
         == Cmpsgn(RoundUp(off, align) + incr + extra, ExtentEnd(bits, off))
  {
    InBlockRounding(bits, off, align);
  }

  lemma SameLastBlock(bits: nat, off: nat, off': nat, q: int)
    requires off > 0 && q >= 0 && BlkRoundUp(bits, off) == q + 1
    requires q * Pow2(bits) < off' <= q * Pow2(bits) + Pow2(bits)
    ensures BlkRoundUp(bits, off') == BlkRoundUp(bits, off)
  {
    BlkRoundUpOf(bits, off', q, off' - q * Pow2(bits));
  }

  /** When the test is not positive the number of blocks does not change, so the
      tail address may stay where it is. */
  lemma NoGrowthWithinExtent(bits: nat, off: nat, incr: nat, align: nat, extra: nat)
    requires ValidBits(bits) && off < TWO_64 && Divides(align, Pow2(bits))
    requires Oob(bits, off, incr, align, extra) <= 0
    ensures BlkRoundUp(bits, RoundUp(off, align) + incr) == BlkRoundUp(bits, off)
  {
    BoundaryTestExact(bits, off, incr, align, extra);
    RoundUpLeast(off, align);
    WithinExtent(bits, off, RoundUp(off, align) + incr);
  }

  lemma WithinExtent(bits: nat, off: nat, off': nat)
    requires ValidBits(bits) && off < TWO_64
    requires off <= off' <= ExtentEnd(bits, off)
    ensures BlkRoundUp(bits, off') == BlkRoundUp(bits, off)
  {
    if off == 0 {
      BlkRoundUpZero(bits);
    } else {
      var q := LastFillSplit(bits, off);
      SameLastBlock(bits, off, off', q);
    }
  }

  /** The value `BattachInternal` returns: the fill of the block that holds the
      last attached byte. */
  lemma ReturnedFill(bits: nat, off': nat)
    requires ValidBits(bits) && off' < TWO_64
    ensures 0 < LastFill(bits, off') <= Pow2(bits)
    ensures LastFill(bits, off') % Pow2(bits) == off' % Pow2(bits)
    ensures ExtentEnd(bits, off') - off' == Pow2(bits) - LastFill(bits, off')
  {
    var q := LastFillSplit(bits, off');
    ShiftDiv(LastFill(bits, off'), q, Pow2(bits));
  }
}
