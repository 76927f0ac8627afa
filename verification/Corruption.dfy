/** All four-byte errors of a checksummed superblock: exactly which of them a reader
    of the image does not notice. */
module Corruption {
  import opened Rounding
  import opened Objects
  import opened LittleEndian
  import opened SuperBlocks
  import opened Crc32c
  import opened CrcPowers
  import opened CrcErrors
  import opened SuperBlockImage

  // ----------------------------------------------------------- differences

  lemma SameByte(a: byte, b: byte)
    ensures XorByte(a, b) == 0 <==> a == b
  {
    hide Xor;
    XorZero(b);
    if Xor(a, b) == 0 { XorCancel(a, b, b); }
  }

  lemma {:induction false} XorShift(k: nat, a: nat, b: nat)
    ensures Xor(a * Pow2(k), b * Pow2(k)) == Xor(a, b) * Pow2(k)
  {
    hide Xor;
    if k > 0 {
      Doubled(a, Pow2(k - 1));
      Doubled(b, Pow2(k - 1));
      Doubled(Xor(a, b), Pow2(k - 1));
      XorShift(k - 1, a, b);
      TwiceXor(a * Pow2(k - 1), b * Pow2(k - 1));
    }
  }

  lemma TwiceXor(a: nat, b: nat)
    ensures Xor(2 * a, 2 * b) == 2 * Xor(a, b)
  {
    XorHalf(2 * a, 2 * b);
  }

  /** Exclusive or of the lowest byte and of the rest. */
  lemma XorDigit(p: byte, q: nat, r: byte, t: nat)
    ensures Xor(p + 0x100 * q, r + 0x100 * t) == XorByte(p, r) + 0x100 * Xor(q, t)
  {
    hide Xor, Pow2;
    Pow32();
    XorDisjoint(8, p, q);
    XorDisjoint(8, r, t);
    XorPairs(p, q * Pow2(8), r, t * Pow2(8));
    XorShift(8, q, t);
    XorDisjoint(8, XorByte(p, r), Xor(q, t));
  }

  function Word4(s: seq<byte>): word
    requires |s| == 4
  {
    Word(s[0], s[1], s[2], s[3])
  }

  lemma GetIsWord(s: seq<byte>)
    requires |s| == 4
    ensures Get(s) == Word4(s)
  {
    assert s[1..][1..] == s[2..] && s[2..][1..] == s[3..] && s[3..][1..] == [];
    assert Get(s[3..]) == s[3] + 256 * Get([]);
    assert Get(s[2..]) == s[2] + 256 * Get(s[3..]);
    assert Get(s[1..]) == s[1] + 256 * Get(s[2..]);
  }

  lemma WordXor(a: seq<byte>, b: seq<byte>)
    requires |a| == |b| == 4
    ensures XorW(Word4(a), Word4(b))
         == Word(XorByte(a[0], b[0]), XorByte(a[1], b[1]), XorByte(a[2], b[2]), XorByte(a[3], b[3]))
  {
    hide Xor;
    var p3: nat, p2: nat, p1: nat := a[3], a[2], a[1];
    var q3: nat, q2: nat, q1: nat := b[3], b[2], b[1];
    p2, q2 := p2 + 0x100 * p3, q2 + 0x100 * q3;
    p1, q1 := p1 + 0x100 * p2, q1 + 0x100 * q2;
    XorDigit(a[2], a[3], b[2], b[3]);
    XorDigit(a[1], p2, b[1], q2);
    XorDigit(a[0], p1, b[0], q1);
  }

  lemma {:induction false} XorBytesAt(a: seq<byte>, b: seq<byte>, x: nat)
    requires |a| == |b| && x < |a|
    ensures XorBytes(a, b)[x] == XorByte(a[x], b[x])
    decreases |a|
  {
    hide XorByte;
    if x > 0 { XorBytesAt(a[1..], b[1..], x - 1); }
  }

  /** The error in byte `x`. */
  function Diff(u: seq<byte>, v: seq<byte>, x: nat): byte
    requires x < |u| && x < |v|
  {
    XorByte(u[x], v[x])
  }

  function Error(u: seq<byte>, v: seq<byte>, x: nat): word
    requires x + 4 <= |u| && x + 4 <= |v|
  {
    Word(Diff(u, v, x), Diff(u, v, x + 1), Diff(u, v, x + 2), Diff(u, v, x + 3))
  }

  lemma DataError(u: seq<byte>, v: seq<byte>, n: nat)
    requires |u| == |v| == 4096 && SumLen(n) && SUPER_OFFSET + n <= 4096
    requires forall x :: 0 <= x < 4096 && !(1028 <= x < 1036) ==> u[x] == v[x]
    ensures XorBytes(SummedPart(u, n), SummedPart(v, n))
         == Zeros(8) + [Diff(u, v, 1032), Diff(u, v, 1033), Diff(u, v, 1034), Diff(u, v, 1035)] + Zeros(n - 12)
  {
    hide XorByte, XorBytes;
    var a, b := SummedPart(u, n), SummedPart(v, n);
    var e := Zeros(8) + [Diff(u, v, 1032), Diff(u, v, 1033), Diff(u, v, 1034), Diff(u, v, 1035)] + Zeros(n - 12);
    forall x | 0 <= x < n ensures XorBytes(a, b)[x] == e[x] {
      XorBytesAt(a, b, x);
      SameByte(a[x], b[x]);
    }
  }

  /** The checksum of an error in the four bytes behind the checksum field. */
  lemma ErrorSum(n: nat, d: seq<byte>)
    requires SumLen(n) && |d| == 4
    ensures Crc(0, Zeros(8) + d + Zeros(n - 12)) == Bits(Run(n), Word4(d))
  {
    hide Xor, Bits, Byte;
    CrcAppend(0, Zeros(8) + d, Zeros(n - 12));
    CrcAppend(0, Zeros(8), d);
    CrcZeros(0, 8);
    StaysZero(64);
    CrcFour(0, d);
    FourBytesAreOneWord(0, d[0], d[1], d[2], d[3]);
    XorZero(Word4(d));
    CrcZeros(Bits(32, Word4(d)), n - 12);
    BitsAdd(32, 8 * (n - 12), Word4(d));
  }

  lemma SumLengths(bits: nat)
    requires ValidBits(bits)
    ensures SumLength(bits) == if bits == 9 then 512 else if bits < 12 then 1024 else 3072
    ensures SumLen(SumLength(bits)) && SUPER_OFFSET + SumLength(bits) <= 4096
  {
    BlockSizes(bits);
  }

  /** An error confined to the checksum field and the four bytes behind it. */
  lemma NearErrorPasses(u: seq<byte>, v: seq<byte>, n: nat)
    requires |u| == |v| == 4096 && SumLen(n) && SUPER_OFFSET + n <= 4096
    requires forall x :: 0 <= x < 4096 && !(1028 <= x < 1036) ==> u[x] == v[x]
    requires u[1032] % 2 == 1
    ensures Passes(u, v, n) <==> Diff(u, v, 1032) % 2 == 0 && Error(u, v, 1028) == Bits(Run(n), Error(u, v, 1032))
  {
    hide Crc, Get, Xor, XorBytes, Bits;
    DataError(u, v, n);
    ErrorSum(n, [Diff(u, v, 1032), Diff(u, v, 1033), Diff(u, v, 1034), Diff(u, v, 1035)]);
    GetIsWord(u[1028..1032]);
    GetIsWord(v[1028..1032]);
    WordXor(u[1028..1032], v[1028..1032]);
    assert u[1024..1028] == v[1024..1028];
    FeatureParity(v[1032..1036]);
    XorHalf(u[1032], v[1032]);
  }

  lemma FeatureParity(s: seq<byte>)
    requires s != []
    ensures Get(s) % 2 == s[0] % 2
  {
    LowestBit(s[0], Get(s[1..]));
  }

  // ------------------------------------------- errors that leave the field

  lemma Whole(k: nat, d: nat)
    requires d > 0
    ensures (d * k) % d == 0
  {
    ModUnique(d * k, k, 0, d);
  }

  lemma LowBytesClear(b0: byte, b1: byte, b2: byte, b3: byte)
    ensures b0 == 0 ==> Word(b0, b1, b2, b3) % 0x100 == 0
    ensures b0 == 0 && b1 == 0 ==> Word(b0, b1, b2, b3) % 0x1_0000 == 0
    ensures b0 == 0 && b1 == 0 && b2 == 0 ==> Word(b0, b1, b2, b3) % 0x100_0000 == 0
  {
    var c1: nat, c2: nat, c3: nat := b1, b2, b3;
    Whole(c1 + 0x100 * c2 + 0x1_0000 * c3, 0x100);
    Whole(c2 + 0x100 * c3, 0x1_0000);
    Whole(c3, 0x100_0000);
  }

  lemma HighBytesClear(b0: byte, b1: byte, b2: byte, b3: byte)
    ensures Word(b0, b1, b2, b3) == 0 ==> b0 == 0 && b1 == 0 && b2 == 0 && b3 == 0
    ensures b3 == 0 ==> Word(b0, b1, b2, b3) < 0x100_0000
    ensures b3 == 0 && b2 == 0 ==> Word(b0, b1, b2, b3) < 0x1_0000
    ensures b3 == 0 && b2 == 0 && b1 == 0 ==> Word(b0, b1, b2, b3) == b0
    ensures Word(b0, b1, b2, b3) % 2 == b0 % 2
  {
  }

  /** Nothing is left of an error without a part behind the field, and nothing was
      changed at all. */
  lemma NoError(u: seq<byte>, v: seq<byte>, n: nat)
    requires |u| == |v| == 4096 && SumLen(n)
    requires forall x :: 0 <= x < 4096 && !(1028 <= x < 1036) ==> u[x] == v[x]
    requires Error(u, v, 1032) == 0 && Error(u, v, 1028) == Bits(Run(n), Error(u, v, 1032))
    ensures u == v
  {
    hide Bits, XorByte, Word;
    StaysZero(Run(n));
    HighBytesClear(Diff(u, v, 1028), Diff(u, v, 1029), Diff(u, v, 1030), Diff(u, v, 1031));
    HighBytesClear(Diff(u, v, 1032), Diff(u, v, 1033), Diff(u, v, 1034), Diff(u, v, 1035));
    forall x | 1028 <= x < 1036 ensures u[x] == v[x] { SameByte(u[x], v[x]); }
  }

  lemma SameDiff(u: seq<byte>, v: seq<byte>, x: nat)
    requires x < |u| && x < |v|
    ensures Diff(u, v, x) == 0 <==> u[x] == v[x]
  {
    SameByte(u[x], v[x]);
  }

  /** An error in four bytes that reaches out of the checksum field passes only at
      position 1030, and there only if it is a listed one. */
  lemma StraddlePasses(u: seq<byte>, v: seq<byte>, n: nat, p: nat)
    requires |u| == |v| == 4096 && SumLen(n) && SUPER_OFFSET + n <= 4096 && 1029 <= p <= 1031
    requires forall x :: 0 <= x < 4096 && !(p <= x < p + 4) ==> u[x] == v[x]
    requires u != v && u[1032] % 2 == 1
    ensures Passes(u, v, n) <==> p == 1030 && Cancels(n, Error(u, v, 1032), Error(u, v, 1028))
  {
    hide Bits, Diff, Passes, Word, Cancels;
    NearErrorPasses(u, v, n);
    forall x | 1028 <= x < 1036 && !(p <= x < p + 4) ensures Diff(u, v, x) == 0 { SameDiff(u, v, x); }
    var w, s := Error(u, v, 1032), Error(u, v, 1028);
    LowBytesClear(Diff(u, v, 1028), Diff(u, v, 1029), Diff(u, v, 1030), Diff(u, v, 1031));
    HighBytesClear(Diff(u, v, 1032), Diff(u, v, 1033), Diff(u, v, 1034), Diff(u, v, 1035));
    if Passes(u, v, n) {
      if p == 1029 {
        OneByteRun(n, w);
      } else if p == 1030 {
        TwoByteRun(n, w);
      } else {
        ThreeByteRun(n, w);
      }
      if w == 0 { NoError(u, v, n); }
    }
    if p == 1030 && Cancels(n, w, s) { CancelsIs(n, w, s); }
  }

  // ------------------------------------------------------- the main results

  /** The error is confined to four consecutive bytes of the checksummed part. */
  predicate FourBytes(dev: seq<byte>, bad: seq<byte>, bits: nat, p: nat) {
    && |bad| == |dev| >= SUPER_OFFSET + SumLength(bits) && bad != dev
    && SUPER_OFFSET <= p && p + 4 <= SUPER_OFFSET + SumLength(bits)
    && forall x :: 0 <= x < |dev| && !(p <= x < p + 4) ==> bad[x] == dev[x]
  }

  /** Of all errors in four consecutive bytes of an image that verifies, exactly the
      listed ones at position 1030 stay unnoticed. */
  lemma FourByteErrorPassesIff(dev: seq<byte>, bad: seq<byte>, bits: nat, p: nat)
    requires ValidBits(bits) && Verifies(dev, bits) && FourBytes(dev, bad, bits, p)
    ensures |dev| >= 1036 && |bad| == |dev|
    ensures Verifies(bad, bits) <==>
      p == 1030 && Cancels(SumLength(bits), Error(dev, bad, 1032), Error(dev, bad, 1028))
  {
    hide Crc, Get, Passes, Verifies, ReadBuffer, Cancels, Word;
    SumLengths(bits);
    var n := SumLength(bits);
    if 1029 <= p <= 1031 {
      StraddleBuffers(dev, bad, bits, p);
      UndetectedIff(dev, bad, bits);
      StraddlePasses(ReadBuffer(dev, bits), ReadBuffer(bad, bits), n, p);
    } else {
      CorruptionDetected(dev, bad, bits, p);
    }
  }

  lemma StraddleBuffers(dev: seq<byte>, bad: seq<byte>, bits: nat, p: nat)
    requires ValidBits(bits) && Verifies(dev, bits) && FourBytes(dev, bad, bits, p) && 1029 <= p <= 1031
    ensures |dev| >= 1036 && |ReadBuffer(dev, bits)| == |ReadBuffer(bad, bits)| == 4096
    ensures var u, v := ReadBuffer(dev, bits), ReadBuffer(bad, bits);
      && u != v && u[1032] % 2 == 1
      && (forall x :: 0 <= x < 4096 && !(p <= x < p + 4) ==> u[x] == v[x])
      && Error(u, v, 1032) == Error(dev, bad, 1032) && Error(u, v, 1028) == Error(dev, bad, 1028)
  {
    hide Crc, Get, XorByte;
    SumLengths(bits);
    ReadLength(bits);
    BufferLength(dev, bits);
    BufferLength(bad, bits);
    var u, v := ReadBuffer(dev, bits), ReadBuffer(bad, bits);
    FeatureParity(u[1032..1036]);
    var x :| 0 <= x < |dev| && dev[x] != bad[x];
    assert u[x] != v[x];
  }

  /** Such errors exist for every block size: this one goes unnoticed in every image
      that verifies. With blocks of 4096 bytes it is a6 9d in bytes 1032 and 1033
      and c7 5f in bytes 1030 and 1031. */
  lemma FourBytesCanPass(dev: seq<byte>, bits: nat) returns (bad: seq<byte>)
    requires ValidBits(bits) && Verifies(dev, bits) && |dev| >= SUPER_OFFSET + SumLength(bits)
    ensures FourBytes(dev, bad, bits, 1030) && Verifies(bad, bits)
    ensures bits == 12 ==>
      && Diff(dev, bad, 1030) == 0xC7 && Diff(dev, bad, 1031) == 0x5F
      && Diff(dev, bad, 1032) == 0xA6 && Diff(dev, bad, 1033) == 0x9D
  {
    hide Crc, Get, Verifies, XorByte;
    SumLengths(bits);
    var e: seq<byte> :=
      if bits == 9 then [0xE9, 0x42, 0xE6, 0x78]
      else if bits == 12 then [0xC7, 0x5F, 0xA6, 0x9D]
      else [0x81, 0x1E, 0xE4, 0x96];
    bad := Overlay(dev, 1030, [XorByte(dev[1030], e[0]), XorByte(dev[1031], e[1]), XorByte(dev[1032], e[2]), XorByte(dev[1033], e[3])]);
    Flipped(dev[1030], e[0]);
    Flipped(dev[1031], e[1]);
    Flipped(dev[1032], e[2]);
    Flipped(dev[1033], e[3]);
    SameByte(dev[1028], bad[1028]);
    SameByte(dev[1029], bad[1029]);
    SameByte(dev[1034], bad[1034]);
    SameByte(dev[1035], bad[1035]);
    SameByte(dev[1030], bad[1030]);
    assert bad != dev;
    FourByteErrorPassesIff(dev, bad, bits, 1030);
  }

  lemma Flipped(a: byte, e: byte)
    ensures XorByte(a, XorByte(a, e)) == e
  {
    hide Xor;
    XorAssoc(a, a, e);
    XorZero(a);
    XorZero(e);
  }
}
