/** The bitwise CRC of pkg/types/helper.go on 32-bit words. A word is a natural
    below 2^32: its low bit is the remainder by two and a shift by one halves
    it. The polynomial is the reflected generator of CRC32C in section 12.1 of
    RFC 3720; the final complement of that standard is left to callers, as in
    the source. */
module Crc32c {
  import opened Rounding
  import opened Objects
  import opened LittleEndian

  type word = x: nat | x < TWO_32

  const POLYNOMIAL: word := 0x82F6_3B78

  /** Bitwise exclusive or of two naturals. */
  function Xor(x: nat, y: nat): nat
    decreases x + y
  {
    if x == 0 && y == 0 then 0
    else 2 * Xor(x / 2, y / 2) + (if x % 2 == y % 2 then 0 else 1)
  }

  lemma {:induction false} XorBound(k: nat, x: nat, y: nat)
    requires x < Pow2(k) && y < Pow2(k)
    ensures Xor(x, y) < Pow2(k)
  {
    if k > 0 && (x != 0 || y != 0) { XorBound(k - 1, x / 2, y / 2); }
  }

  lemma Pow32()
    ensures Pow2(32) == TWO_32 && Pow2(31) == 0x8000_0000 && Pow2(8) == 256
  {
    assert Pow2(8) == 256 by { assert Pow2(4) == 16; }
    assert Pow2(12) == 4096;
    assert Pow2(16) == 0x1_0000;
    assert Pow2(20) == 0x10_0000;
    assert Pow2(24) == 0x100_0000;
    assert Pow2(28) == 0x1000_0000;
    assert Pow2(31) == 0x8000_0000;
  }

  /** Exclusive or of two machine words. */
  function XorW(x: word, y: word): word {
    Pow32();
    XorBound(32, x, y);
    Xor(x, y)
  }

  /** One bit: shift right, and subtract the polynomial for a bit shifted out. */
  function Bit(crc: word): word {
    if crc % 2 != 0 then XorW(crc / 2, POLYNOMIAL) else crc / 2
  }

  function Bits(n: nat, crc: word): word {
    if n == 0 then crc else Bits(n - 1, Bit(crc))
  }

  function Byte(crc: word, b: byte): word { Bits(8, XorW(crc, b)) }

  /** The checksum of `data` from the register value `crc` on. */
  function Crc(crc: word, data: seq<byte>): word
    decreases |data|
  {
    if data == [] then crc else Crc(Byte(crc, data[0]), data[1..])
  }

  // ------------------------------------------------------------- the loops

  /** `Crc32c`. */
  method Crc32c(seed: word, data: seq<byte>) returns (crc: word)
    ensures crc == Crc(seed, data)
  {
    hide XorW;
    crc := seed;
    for n := 0 to |data|
      invariant Crc(crc, data[n..]) == Crc(seed, data)
    {
      ghost var start := crc;
      assert data[n..][0] == data[n] && data[n..][1..] == data[n + 1..];
      crc := XorW(crc, data[n]);
      for i := 0 to 8
        invariant Bits(8 - i, crc) == Byte(start, data[n])
      {
        if crc % 2 != 0 {
          crc := XorW(crc / 2, POLYNOMIAL);
        } else {
          crc := crc / 2;
        }
      }
    }
  }

  /** `ErofsGetCrc32c`, the second copy: over the first `length` bytes. */
  method ErofsGetCrc32c(seed: word, data: seq<byte>, length: nat) returns (crc: word)
    requires length <= |data|
    ensures crc == Crc(seed, data[..length])
  {
    hide XorW;
    crc := seed;
    var i := 0;
    while i < length
      invariant i <= length && Crc(crc, data[i..length]) == Crc(seed, data[..length])
    {
      ghost var start := crc;
      assert data[i..length][0] == data[i] && data[i..length][1..] == data[i + 1..length];
      crc := XorW(crc, data[i]);
      var j := 0;
      while j < 8
        invariant j <= 8 && Bits(8 - j, crc) == Byte(start, data[i])
      {
        crc := if crc % 2 != 0 then XorW(crc / 2, POLYNOMIAL) else crc / 2;
        j := j + 1;
      }
      i := i + 1;
    }
  }

  // ----------------------------------------------------------- exclusive or

  lemma {:induction false} XorCommutes(x: nat, y: nat)
    ensures Xor(x, y) == Xor(y, x)
    decreases x + y
  {
    if x != 0 || y != 0 { XorCommutes(x / 2, y / 2); }
  }

  lemma XorHalf(x: nat, y: nat)
    ensures Xor(x, y) / 2 == Xor(x / 2, y / 2)
    ensures (Xor(x, y) % 2 == 1) <==> x % 2 != y % 2
  {
    if x == 0 && y == 0 { assert Xor(0, 0) == 0; }
  }

  /** Naturals with the same bits are the same. */
  lemma SameHalves(x: nat, y: nat)
    requires x / 2 == y / 2 && x % 2 == y % 2
    ensures x == y
  {
  }

  lemma {:induction false} XorAssoc(x: nat, y: nat, z: nat)
    ensures Xor(Xor(x, y), z) == Xor(x, Xor(y, z))
    decreases x + y + z
  {
    hide Xor;
    if x == 0 && y == 0 && z == 0 {
      XorZero(0);
    } else {
      XorAssoc(x / 2, y / 2, z / 2);
      XorHalf(x, y);
      XorHalf(y, z);
      XorHalf(Xor(x, y), z);
      XorHalf(x, Xor(y, z));
      SameHalves(Xor(Xor(x, y), z), Xor(x, Xor(y, z)));
    }
  }

  lemma {:induction false} XorZero(x: nat)
    ensures Xor(x, 0) == x && Xor(0, x) == x && Xor(x, x) == 0
  {
    if x != 0 { XorZero(x / 2); }
  }

  lemma XorCancel(x: nat, y: nat, z: nat)
    requires Xor(x, z) == Xor(y, z)
    ensures x == y
  {
    hide Xor;
    XorAssoc(x, z, z);
    XorAssoc(y, z, z);
    XorZero(z);
    XorZero(x);
    XorZero(y);
  }

  lemma XorMoves(x: nat, y: nat, p: nat)
    ensures Xor(Xor(x, p), y) == Xor(Xor(x, y), p) == Xor(x, Xor(y, p))
    ensures Xor(Xor(x, p), Xor(y, p)) == Xor(x, y)
  {
    hide Xor;
    XorAssoc(x, p, y);
    XorAssoc(x, y, p);
    XorCommutes(y, p);
    XorAssoc(x, p, Xor(y, p));
    XorAssoc(p, p, y);
    XorZero(p);
    XorZero(y);
  }

  /** Numbers without common bits add up. */
  lemma {:induction false} XorDisjoint(k: nat, low: nat, high: nat)
    requires low < Pow2(k)
    ensures Xor(low, high * Pow2(k)) == low + high * Pow2(k)
  {
    if k == 0 {
      XorZero(high);
    } else {
      hide Xor;
      var m := high * Pow2(k);
      assert m == 2 * (high * Pow2(k - 1));
      XorDisjoint(k - 1, low / 2, high);
      XorHalf(low, m);
      SameHalves(Xor(low, m), low + m);
    }
  }

  // ------------------------------------------------------------ structure

  /** Checksums compose over concatenation. */
  lemma {:induction false} CrcAppend(crc: word, a: seq<byte>, b: seq<byte>)
    ensures Crc(crc, a + b) == Crc(Crc(crc, a), b)
    decreases |a|
  {
    hide Byte;
    if a == [] {
      assert a + b == b;
    } else {
      assert (a + b)[1..] == a[1..] + b;
      CrcAppend(Byte(crc, a[0]), a[1..], b);
    }
  }

  /** The bit step is linear. */
  lemma BitLinear(x: word, y: word)
    ensures Bit(XorW(x, y)) == XorW(Bit(x), Bit(y))
  {
    hide Xor;
    XorHalf(x, y);
    XorMoves(x / 2, y / 2, POLYNOMIAL);
    XorZero(0);
  }

  lemma {:induction false} BitsLinear(n: nat, x: word, y: word)
    ensures Bits(n, XorW(x, y)) == XorW(Bits(n, x), Bits(n, y))
  {
    hide Bit, XorW;
    if n > 0 {
      BitLinear(x, y);
      BitsLinear(n - 1, Bit(x), Bit(y));
    }
  }

  /** A bit at position `k` survives exclusive or with a smaller number. */
  lemma TopBit(k: nat, x: nat, p: nat)
    requires x < Pow2(k) && p < Pow2(k)
    ensures Xor(x, p + Pow2(k)) == Xor(x, p) + Pow2(k)
  {
    hide Xor;
    XorDisjoint(k, p, 1);
    XorBound(k, x, p);
    XorDisjoint(k, Xor(x, p), 1);
    XorAssoc(x, p, Pow2(k));
  }

  /** The bit step loses nothing, because the top bit of the polynomial is set. */
  lemma BitInjective(x: word, y: word)
    requires Bit(x) == Bit(y)
    ensures x == y
  {
    hide Xor;
    Pow32();
    TopBit(31, x / 2, POLYNOMIAL - 0x8000_0000);
    TopBit(31, y / 2, POLYNOMIAL - 0x8000_0000);
    if x % 2 == 1 && y % 2 == 1 { XorCancel(x / 2, y / 2, POLYNOMIAL); }
  }

  lemma {:induction false} BitsInjective(n: nat, x: word, y: word)
    requires Bits(n, x) == Bits(n, y)
    ensures x == y
  {
    hide Bit;
    if n > 0 {
      BitsInjective(n - 1, Bit(x), Bit(y));
      BitInjective(x, y);
    }
  }

  lemma {:induction false} BitsAdd(m: nat, n: nat, x: word)
    ensures Bits(m + n, x) == Bits(n, Bits(m, x))
  {
    hide Bit;
    if m > 0 { BitsAdd(m - 1, n, Bit(x)); }
  }

  /** The checksum of fixed data determines the register it started from. */
  lemma {:induction false} CrcInjective(x: word, y: word, data: seq<byte>)
    requires Crc(x, data) == Crc(y, data)
    ensures x == y
    decreases |data|
  {
    hide Bits, Xor;
    if data != [] {
      CrcInjective(Byte(x, data[0]), Byte(y, data[0]), data[1..]);
      BitsInjective(8, XorW(x, data[0]), XorW(y, data[0]));
      XorCancel(x, y, data[0]);
    }
  }

  // ------------------------------------------------- error bursts of 32 bits

  /** Four bytes as a little-endian word. */
  function Word(b0: byte, b1: byte, b2: byte, b3: byte): word {
    b0 + 0x100 * b1 + 0x1_0000 * b2 + 0x100_0000 * b3
  }

  lemma Doubled(x: nat, y: nat)
    ensures x * (2 * y) == 2 * (x * y)
  {
  }

  /** Bit steps on a word whose low bits are clear only shift. */
  lemma {:induction false} BitsOfMultiple(k: nat, x: nat)
    requires x * Pow2(k) < TWO_32
    ensures x < TWO_32 && Bits(k, x * Pow2(k)) == x
  {
    if k > 0 {
      var y := x * Pow2(k - 1);
      assert x * Pow2(k) == 2 * y by { Doubled(x, Pow2(k - 1)); }
      BitsOfMultiple(k - 1, x);
    }
  }

  /** A byte step on a word whose low byte is mixed in brings the rest down. */
  lemma ByteOfWord(crc: word, low: byte, high: nat)
    requires low + 0x100 * high < TWO_32
    ensures Bits(8, XorW(crc, low + 0x100 * high)) == XorW(Byte(crc, low), high)
  {
    hide Bits, Xor;
    Pow32();
    XorDisjoint(8, low, high);
    XorAssoc(crc, low, 0x100 * high);
    BitsLinear(8, XorW(crc, low), 0x100 * high);
    BitsOfMultiple(8, high);
  }

  /** Four byte steps are 32 bit steps on the register and the little-endian word. */
  lemma FourBytesAreOneWord(crc: word, b0: byte, b1: byte, b2: byte, b3: byte)
    ensures Byte(Byte(Byte(Byte(crc, b0), b1), b2), b3) == Bits(32, XorW(crc, Word(b0, b1, b2, b3)))
  {
    hide Bits, XorW, Byte;
    var h1 := b1 + 0x100 * b2 + 0x1_0000 * b3;
    var h2 := b2 + 0x100 * b3;
    BitsAdd(8, 24, XorW(crc, Word(b0, b1, b2, b3)));
    ByteOfWord(crc, b0, h1);
    var c1 := Byte(crc, b0);
    BitsAdd(8, 16, XorW(c1, h1));
    ByteOfWord(c1, b1, h2);
    var c2 := Byte(c1, b1);
    BitsAdd(8, 8, XorW(c2, h2));
    ByteOfWord(c2, b2, b3);
    ByteIs(Byte(c2, b2), b3);
  }

  lemma ByteIs(crc: word, b: byte)
    ensures Byte(crc, b) == Bits(8, XorW(crc, b))
  {
  }

  lemma CrcFour(crc: word, w: seq<byte>)
    requires |w| == 4
    ensures Crc(crc, w) == Byte(Byte(Byte(Byte(crc, w[0]), w[1]), w[2]), w[3])
  {
    hide Byte;
    assert w[1..][1..] == w[2..] && w[2..][1..] == w[3..] && w[3..][1..] == [];
    var c2 := Byte(Byte(crc, w[0]), w[1]);
    assert Crc(crc, w) == Crc(c2, w[2..]) by { assert Crc(Byte(crc, w[0]), w[1..]) == Crc(c2, w[2..]); }
    assert Crc(c2, w[2..]) == Crc(Byte(c2, w[2]), w[3..]);
    assert Crc(Byte(c2, w[2]), w[3..]) == Crc(Byte(Byte(c2, w[2]), w[3]), []);
  }

  lemma WordInjective(a0: byte, a1: byte, a2: byte, a3: byte, b0: byte, b1: byte, b2: byte, b3: byte)
    requires Word(a0, a1, a2, a3) == Word(b0, b1, b2, b3)
    ensures a0 == b0 && a1 == b1 && a2 == b2 && a3 == b3
  {
    LowByte(a0, b0, a1 + 0x100 * (a2 + 0x100 * a3), b1 + 0x100 * (b2 + 0x100 * b3));
    LowByte(a1, b1, a2 + 0x100 * a3, b2 + 0x100 * b3);
    LowByte(a2, b2, a3, b3);
  }

  lemma LowByte(a: byte, b: byte, x: nat, y: nat)
    ensures a + 0x100 * x == b + 0x100 * y ==> a == b && x == y
  {
  }

  lemma FourBytesInjective(c: word, v: seq<byte>, w: seq<byte>)
    requires |v| == |w| == 4 && Crc(c, v) == Crc(c, w)
    ensures v == w
  {
    hide Bits, Byte, Xor, Crc, Word;
    CrcFour(c, v);
    CrcFour(c, w);
    FourBytesAreOneWord(c, v[0], v[1], v[2], v[3]);
    FourBytesAreOneWord(c, w[0], w[1], w[2], w[3]);
    var x, y := Word(v[0], v[1], v[2], v[3]), Word(w[0], w[1], w[2], w[3]);
    BitsInjective(32, XorW(c, x), XorW(c, y));
    XorCommutes(c, x);
    XorCommutes(c, y);
    XorCancel(x, y, c);
    WordInjective(v[0], v[1], v[2], v[3], w[0], w[1], w[2], w[3]);
  }

  /** Any change confined to four consecutive bytes changes the checksum, for
      every seed and wherever in the data the bytes are. */
  lemma BurstDetected(seed: word, pre: seq<byte>, v: seq<byte>, w: seq<byte>, post: seq<byte>)
    requires |v| == |w| == 4 && v != w
    ensures Crc(seed, pre + v + post) != Crc(seed, pre + w + post)
  {
    hide Crc;
    CrcAppend(seed, pre + v, post);
    CrcAppend(seed, pre + w, post);
    CrcAppend(seed, pre, v);
    CrcAppend(seed, pre, w);
    var c := Crc(seed, pre);
    if Crc(seed, pre + v + post) == Crc(seed, pre + w + post) {
      CrcInjective(Crc(c, v), Crc(c, w), post);
      FourBytesInjective(c, v, w);
    }
  }

  // ----------------------------------------------------------- odd errors

  /** Whether a number has an odd number of one bits. */
  predicate Odd(x: nat) { x != 0 && (x % 2 == 1) != Odd(x / 2) }

  /** Whether the data have an odd number of one bits. */
  predicate OddData(data: seq<byte>) { data != [] && Odd(data[0]) != OddData(data[1..]) }

  lemma {:induction false} OddXor(x: nat, y: nat)
    ensures Odd(Xor(x, y)) <==> (Odd(x) != Odd(y))
    decreases x + y
  {
    if x != 0 || y != 0 {
      XorHalf(x, y);
      OddXor(x / 2, y / 2);
    }
  }

  lemma OddPolynomial()
    ensures Odd(POLYNOMIAL)
  {
    assert Odd(0x8);
    assert Odd(0x82) == !Odd(0x8) by { assert Odd(0x20) == Odd(0x10); }
    assert Odd(0x82F) == Odd(0x82) by { assert Odd(0x20B) != Odd(0x105); }
    assert Odd(0x82F6) == Odd(0x82F) by { assert Odd(0x20BD) != Odd(0x105E); }
    assert Odd(0x82F63) == Odd(0x82F6) by { assert Odd(0x20BD8) == Odd(0x105EC); }
    assert Odd(0x82F63B) != Odd(0x82F63) by { assert Odd(0x20BD8E) == Odd(0x105EC7); }
    assert Odd(0x82F63B7) != Odd(0x82F63B) by { assert Odd(0x20BD8ED) != Odd(0x105EC76); }
    assert Odd(0x82F63B78) != Odd(0x82F63B7) by { assert Odd(0x20BD8EDE) == Odd(0x105EC76F); }
  }

  /** The polynomial has an odd number of bits, so a bit step keeps the parity. */
  lemma BitKeepsParity(x: word)
    ensures Odd(Bit(x)) == Odd(x)
  {
    hide Xor;
    OddXor(x / 2, POLYNOMIAL);
    OddPolynomial();
  }

  lemma {:induction false} BitsKeepParity(n: nat, x: word)
    ensures Odd(Bits(n, x)) == Odd(x)
  {
    hide Bit, Odd;
    if n > 0 {
      BitsKeepParity(n - 1, Bit(x));
      BitKeepsParity(x);
    }
  }

  /** The parity of a checksum is the parity of the seed and of all data bits. */
  lemma {:induction false} ParityOfCrc(seed: word, data: seq<byte>)
    ensures Odd(Crc(seed, data)) <==> (Odd(seed) != OddData(data))
    decreases |data|
  {
    hide Bits, Xor, Odd;
    if data != [] {
      ParityOfCrc(Byte(seed, data[0]), data[1..]);
      BitsKeepParity(8, XorW(seed, data[0]));
      OddXor(seed, data[0]);
    }
  }

  /** Messages that differ in an odd number of bits never collide. */
  lemma OddErrorsDetected(seed: word, v: seq<byte>, w: seq<byte>)
    requires OddData(v) != OddData(w)
    ensures Crc(seed, v) != Crc(seed, w)
  {
    hide Crc, Odd, OddData;
    ParityOfCrc(seed, v);
    ParityOfCrc(seed, w);
  }

  // ------------------------------------------------------ error patterns

  function XorByte(x: byte, y: byte): byte {
    Pow32();
    XorBound(8, x, y);
    Xor(x, y)
  }

  /** The bits in which two messages differ. */
  function XorBytes(a: seq<byte>, b: seq<byte>): (r: seq<byte>)
    requires |a| == |b|
    ensures |r| == |a|
  {
    if a == [] then [] else [XorByte(a[0], b[0])] + XorBytes(a[1..], b[1..])
  }

  lemma XorPairs(x: nat, y: nat, p: nat, q: nat)
    ensures Xor(Xor(x, y), Xor(p, q)) == Xor(Xor(x, p), Xor(y, q))
  {
    XorAssoc(x, y, Xor(p, q));
    XorAssoc(y, p, q);
    XorCommutes(y, p);
    XorAssoc(p, y, q);
    XorAssoc(x, p, Xor(y, q));
  }

  lemma ByteLinear(x: word, y: word, p: byte, q: byte)
    ensures Byte(XorW(x, y), XorByte(p, q)) == XorW(Byte(x, p), Byte(y, q))
  {
    hide Xor, Bits;
    XorPairs(x, y, p, q);
    BitsLinear(8, XorW(x, p), XorW(y, q));
  }

  /** The checksum is linear in register and message together. */
  lemma {:induction false} CrcLinear(x: word, y: word, a: seq<byte>, b: seq<byte>)
    requires |a| == |b|
    ensures Crc(XorW(x, y), XorBytes(a, b)) == XorW(Crc(x, a), Crc(y, b))
    decreases |a|
  {
    hide XorW, Byte, XorByte;
    if a != [] {
      ByteLinear(x, y, a[0], b[0]);
      CrcLinear(Byte(x, a[0]), Byte(y, b[0]), a[1..], b[1..]);
      assert XorBytes(a, b)[1..] == XorBytes(a[1..], b[1..]);
    }
  }

  /** How the checksums of two messages differ depends only on how the messages do. */
  lemma CrcDifference(seed: word, a: seq<byte>, b: seq<byte>)
    requires |a| == |b|
    ensures XorW(Crc(seed, a), Crc(seed, b)) == Crc(0, XorBytes(a, b))
  {
    hide Xor, Crc, XorBytes;
    XorZero(seed);
    CrcLinear(seed, seed, a, b);
  }

  // ------------------------------------------- bursts at any bit position

  /** The bit step on a register that is followed by message bits: the register is
      the low word, and the message bits move into it. */
  function Wide(n: nat, c: nat): nat {
    if n == 0 then c else Wide(n - 1, if c % 2 != 0 then Xor(c / 2, POLYNOMIAL) else c / 2)
  }

  lemma {:induction false} WideIsBits(n: nat, c: word)
    ensures Wide(n, c) == Bits(n, c)
  {
    hide Xor;
    if n > 0 { WideIsBits(n - 1, Bit(c)); }
  }

  lemma {:induction false} WideAdd(m: nat, n: nat, c: nat)
    ensures Wide(m + n, c) == Wide(n, Wide(m, c))
  {
    hide Xor;
    if m > 0 { WideAdd(m - 1, n, if c % 2 != 0 then Xor(c / 2, POLYNOMIAL) else c / 2); }
  }

  /** What lies above the bits that are shifted out only comes down. */
  lemma {:induction false} WideAbove(n: nat, c: nat, d: nat)
    ensures Wide(n, Xor(c, d * Pow2(n))) == Xor(Wide(n, c), d)
  {
    hide Xor;
    if n > 0 {
      var x, y := c, d * Pow2(n - 1);
      Doubled(d, Pow2(n - 1));
      XorHalf(x, 2 * y);
      XorMoves(x / 2, y, POLYNOMIAL);
      WideAbove(n - 1, if x % 2 != 0 then Xor(x / 2, POLYNOMIAL) else x / 2, d);
    }
  }

  lemma WideEven(n: nat, c: nat)
    requires n > 0 && c % 2 == 0
    ensures Wide(n, c) == Wide(n - 1, c / 2)
  {
    hide Xor;
  }

  lemma PowerSplit(n: nat, d: nat)
    requires n > 0
    ensures d * Pow2(n) % 2 == 0 && d * Pow2(n) / 2 == d * Pow2(n - 1)
  {
    Doubled(d, Pow2(n - 1));
  }

  lemma {:induction false} WideShift(n: nat, d: nat)
    ensures Wide(n, d * Pow2(n)) == d
    decreases n
  {
    if n > 0 {
      hide Wide, Pow2;
      PowerSplit(n, d);
      WideEven(n, d * Pow2(n));
      WideShift(n - 1, d);
    }
  }

  /** Five byte steps are forty bit steps on the little-endian number. */
  lemma FiveBytesAreOneNumber(s: seq<byte>)
    requires |s| == 5
    ensures Crc(0, s) == Wide(40, Get(s))
  {
    hide Xor, Bits, Byte, Wide;
    var low, w := s[..4], Word(s[0], s[1], s[2], s[3]);
    CrcAppend(0, low, s[4..]);
    assert low + s[4..] == s;
    CrcFour(0, low);
    FourBytesAreOneWord(0, s[0], s[1], s[2], s[3]);
    XorZero(w);
    LastByte(Bits(32, w), s[4..]);
    GetFive(s);
    Pow32();
    XorDisjoint(32, w, s[4]);
    WideAbove(32, w, s[4]);
    WideIsBits(32, w);
    WideIsBits(8, XorW(Bits(32, w), s[4]));
    WideAdd(32, 8, Get(s));
  }

  lemma LastByte(c: word, s: seq<byte>)
    requires |s| == 1
    ensures Crc(c, s) == Bits(8, XorW(c, s[0]))
  {
    hide Bits, XorW;
    assert Crc(Byte(c, s[0]), s[1..]) == Byte(c, s[0]);
  }

  lemma GetFive(s: seq<byte>)
    requires |s| == 5
    ensures Get(s) == Word(s[0], s[1], s[2], s[3]) + s[4] * TWO_32
  {
    assert s[1..][1..] == s[2..] && s[2..][1..] == s[3..] && s[3..][1..] == s[4..] && s[4..][1..] == [];
    assert Get(s[4..]) == s[4] + 256 * Get([]);
    assert Get(s[3..]) == s[3] + 256 * Get(s[4..]);
    assert Get(s[2..]) == s[2] + 256 * Get(s[3..]);
    assert Get(s[1..]) == s[1] + 256 * Get(s[2..]);
  }

  /** Any error burst of up to 32 bits changes the checksum, wherever in a byte it
      begins: the difference is a word shifted by less than a byte. */
  lemma BitBurstDetected(seed: word, pre: seq<byte>, v: seq<byte>, w: seq<byte>, post: seq<byte>, e: word, j: nat)
    requires |v| == |w| == 5 && e != 0 && j < 8 && Get(XorBytes(v, w)) == e * Pow2(j)
    ensures Crc(seed, pre + v + post) != Crc(seed, pre + w + post)
  {
    hide Crc, Xor, Bits, Wide, XorBytes, Get;
    var c := Crc(seed, pre);
    CrcDifference(c, v, w);
    FiveBytesAreOneNumber(XorBytes(v, w));
    WideAdd(j, 40 - j, e * Pow2(j));
    WideShift(j, e);
    WideIsBits(40 - j, e);
    if Crc(c, v) == Crc(c, w) {
      XorZero(Crc(c, v));
      StaysZero(40 - j);
      BitsInjective(40 - j, e, 0);
      assert false;
    }
    if Crc(seed, pre + v + post) == Crc(seed, pre + w + post) {
      CrcAppend(seed, pre + v, post);
      CrcAppend(seed, pre + w, post);
      CrcAppend(seed, pre, v);
      CrcAppend(seed, pre, w);
      CrcInjective(Crc(c, v), Crc(c, w), post);
    }
  }

  lemma StaysZero(n: nat)
    ensures Bits(n, 0) == 0
  {
    hide Xor;
    BitsLinear(n, 0, 0);
    XorZero(0);
    XorZero(Bits(n, 0));
  }

  // -------------------------------------------------------- zero bytes

  /** Zero bytes only run the register. */
  lemma {:induction false} CrcZeros(w: word, m: nat)
    ensures Crc(w, Zeros(m)) == Bits(8 * m, w)
    decreases m
  {
    hide Xor, Bits;
    if m == 0 {
      assert Bits(0, w) == w by { NoBits(w); }
    } else {
      XorZero(w);
      assert Zeros(m)[1..] == Zeros(m - 1);
      CrcZeros(Byte(w, 0), m - 1);
      BitsAdd(8, 8 * (m - 1), w);
    }
  }

  lemma NoBits(w: word)
    ensures Bits(0, w) == w
  {
  }

  // ----------------------------------------------------------- all ones

  /** Exclusive or with all ones turns every bit. */
  lemma {:induction false} XorOnes(k: nat, x: nat)
    requires x < Pow2(k)
    ensures Xor(Pow2(k) - 1, x) == Pow2(k) - 1 - x
  {
    if k == 0 {
      XorZero(0);
    } else {
      XorOnes(k - 1, x / 2);
      XorHalf(Pow2(k) - 1, x);
    }
  }

  /** A message with every bit of its first four bytes turned. */
  function Inverted(d: seq<byte>): (r: seq<byte>)
    requires |d| >= 4
    ensures |r| == |d|
  {
    [255 - d[0], 255 - d[1], 255 - d[2], 255 - d[3]] + d[4..]
  }

  /** The first four bytes go into the register as one word. */
  lemma FirstWord(seed: word, d: seq<byte>)
    requires |d| >= 4
    ensures Crc(seed, d) == Crc(Bits(32, XorW(seed, Word(d[0], d[1], d[2], d[3]))), d[4..])
  {
    hide Crc, XorW, Word, Byte, Bits;
    assert d == d[..4] + d[4..];
    CrcAppend(seed, d[..4], d[4..]);
    CrcFour(seed, d[..4]);
    FourBytesAreOneWord(seed, d[0], d[1], d[2], d[3]);
  }

  /** So the seed can be moved into those bytes. */
  lemma SeedMoves(x: word, y: word, d: seq<byte>, e: seq<byte>)
    requires |d| >= 4 && |e| >= 4 && d[4..] == e[4..]
    requires XorW(x, Word(d[0], d[1], d[2], d[3])) == XorW(y, Word(e[0], e[1], e[2], e[3]))
    ensures Crc(x, d) == Crc(y, e)
  {
    hide Crc, XorW, Word, Bits;
    FirstWord(x, d);
    FirstWord(y, e);
  }

  lemma WordOnes(b0: byte, b1: byte, b2: byte, b3: byte)
    ensures XorW(0xFFFF_FFFF, Word(b0, b1, b2, b3)) == XorW(0, Word(255 - b0, 255 - b1, 255 - b2, 255 - b3))
  {
    hide Xor;
    Pow32();
    XorOnes(32, Word(b0, b1, b2, b3));
    XorZero(Word(255 - b0, 255 - b1, 255 - b2, 255 - b3));
  }

  lemma OnesMove(x: word, y: word, d: seq<byte>, e: seq<byte>)
    requires |d| >= 4 && x == 0xFFFF_FFFF && y == 0 && e == Inverted(d)
    ensures Crc(x, d) == Crc(y, e)
  {
    hide Crc, XorW, Word;
    WordOnes(d[0], d[1], d[2], d[3]);
    SeedMoves(x, y, d, e);
  }

  /** Starting from all ones is starting from zero with the first four bytes inverted. */
  lemma FromAllOnes(d: seq<byte>)
    requires |d| >= 4
    ensures Crc(0xFFFF_FFFF, d) == Crc(0, Inverted(d))
  {
    hide Crc, Inverted;
    OnesMove(0xFFFF_FFFF, 0, d, Inverted(d));
  }
}
