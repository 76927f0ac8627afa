/** The superblock in the image: the hand-written serializer of
    pkg/types/superblkinfo.go, the one `WriteSuperBlock` uses, and the checksum
    step on the device. */
module SuperBlockImage {
  import opened Rounding
  import opened Objects
  import opened LittleEndian
  import opened SuperBlocks
  import opened Crc32c

  /** The fields of `SuperBlkInfo` that reach the superblock. */
  datatype Info = Info(
    BlkSzBits: u8, RootNid: u32, Inos: u64, BuildTime: u64, BuildTimeNsec: u32, MetaBlkAddr: u32,
    XattrBlkAddr: u32, XattrPrefixCount: u8, XattrPrefixStart: u32, FeatureIncompat: u32, FeatureCompat: u32,
    ExtraDevices: u16, DevtSlotOff: u16, PackedNid: u64, UUID: b16, VolumeName: b16,
    AvailableComprAlgs: u16, MaxDistance: u16, TotalBlocks: u64)

  /** `ErofsSbHasComprCfgs` and `HasFeature(sbi, "compr_cfgs")`: bit one. */
  predicate HasComprCfgs(i: Info) { BitAnd(i.FeatureIncompat, 2) != 0 }

  /** The compatible features without the checksum bit, which is bit zero. */
  function WithoutChecksumBit(f: u32): u32 { f - f % 2 }

  /** That is what masking with the complement of one gives. */
  lemma ChecksumBitMasked(f: u32)
    ensures BitAnd(f, 0xFFFF_FFFE) == WithoutChecksumBit(f)
  {
    Ones31();
    MaskIsMod(f / 2, 31);
    ModUnique(f / 2, 0, f / 2, Pow2(31));
    if f > 0 { assert BitAnd(f, 0xFFFF_FFFE) == 2 * BitAnd(f / 2, 0x7FFF_FFFF); }
  }

  lemma Ones31()
    ensures Pow2(31) == 0x8000_0000
  {
    Pow32();
  }

  /** The record both writers start from. */
  function Record(i: Info, blocks: u32, dirBlkBits: u8): SuperBlock {
    SuperBlock(MAGIC, 0, WithoutChecksumBit(i.FeatureCompat), i.BlkSzBits, 0, i.RootNid % 0x1_0000,
      i.Inos, i.BuildTime, i.BuildTimeNsec, blocks, i.MetaBlkAddr, i.XattrBlkAddr,
      i.UUID, i.VolumeName, i.FeatureIncompat, if HasComprCfgs(i) then i.AvailableComprAlgs else i.MaxDistance,
      i.ExtraDevices, i.DevtSlotOff, dirBlkBits, i.XattrPrefixCount, i.XattrPrefixStart, i.PackedNid,
      0, seq(23, _ => 0))
  }

  /** The block count of the method: truncated to 32 bits, and two if that is zero. */
  function MethodBlocks(i: Info): u32 {
    if i.TotalBlocks % 0x1_0000_0000 == 0 then 2 else i.TotalBlocks % 0x1_0000_0000
  }

  /** What a reader of the format finds in the first 1152 bytes of an image: nothing
      in front of the superblock, and in it, each number little-endian at its place,
      the values of `i`, the given number of blocks and directory block bits. The
      checksum and the compatible features are left out. */
  ghost predicate Describes(w: seq<byte>, i: Info, blocks: nat, dirBlkBits: nat) {
    |w| == 1152 && w[..1024] == Zeros(1024) &&
    var e := w[1024..];
    && Get(e[0..4]) == 0xE0F5_E1E2
    && e[12] == i.BlkSzBits && e[13] == 0 && Get(e[14..16]) == i.RootNid % 0x1_0000
    && Get(e[16..24]) == i.Inos && Get(e[24..32]) == i.BuildTime && Get(e[32..36]) == i.BuildTimeNsec
    && Get(e[36..40]) == blocks && Get(e[40..44]) == i.MetaBlkAddr && Get(e[44..48]) == i.XattrBlkAddr
    && e[48..64] == i.UUID && e[64..80] == i.VolumeName && Get(e[80..84]) == i.FeatureIncompat
    && Get(e[84..86]) == (if i.FeatureIncompat / 2 % 2 == 1 then i.AvailableComprAlgs else i.MaxDistance)
    && Get(e[86..88]) == i.ExtraDevices && Get(e[88..90]) == i.DevtSlotOff
    && e[90] == dirBlkBits && e[91] == i.XattrPrefixCount && Get(e[92..96]) == i.XattrPrefixStart
    && Get(e[96..104]) == i.PackedNid && e[104] == 0 && e[105..128] == Zeros(23)
  }

  lemma SecondBit(f: nat)
    ensures BitAnd(f, 2) != 0 <==> f / 2 % 2 == 1
  {
    assert BitAnd(f / 2, 1) == f / 2 % 2 by { assert BitAnd(f / 2 / 2, 0) == 0; }
  }

  /** The serialized record of both writers behind 1024 zero bytes. */
  lemma RecordDescribes(i: Info, blocks: u32, dirBlkBits: u8)
    ensures var w := Zeros(1024) + Encode(ToDisk(Record(i, blocks, dirBlkBits)));
      && Describes(w, i, blocks, dirBlkBits)
      && Get(w[1028..1032]) == 0 && Get(w[1032..1036]) == i.FeatureCompat - i.FeatureCompat % 2
  {
    hide Encode, Get, Put, BitAnd;
    SecondBit(i.FeatureIncompat);
    var e := Encode(ToDisk(Record(i, blocks, dirBlkBits)));
    var w := Zeros(1024) + e;
    EncodedFields(Record(i, blocks, dirBlkBits));
    assert w[1024..] == e && w[1028..1032] == e[4..8] && w[1032..1036] == e[8..12];
  }

  // ---------------------------------------------------------------- overlays

  /** `s` with `d` written at position `p`. */
  function Overlay(s: seq<byte>, p: nat, d: seq<byte>): (r: seq<byte>)
    requires p + |d| <= |s|
    ensures |r| == |s|
    ensures forall x :: 0 <= x < |s| ==> r[x] == if p <= x < p + |d| then d[x - p] else s[x]
  {
    s[..p] + d + s[p + |d|..]
  }

  lemma OverlayAppend(s: seq<byte>, p: nat, a: seq<byte>, b: seq<byte>)
    requires p + |a| + |b| <= |s|
    ensures Overlay(Overlay(s, p, a), p + |a|, b) == Overlay(s, p, a + b)
  {
  }

  /** The bytes of a number, stored one by one. */
  method Store4(buf: array<byte>, p: nat, v: u32, ghost z: seq<byte>, ghost o: nat, ghost acc: seq<byte>)
    requires o + |acc| + 4 <= |z| == buf.Length && p == o + |acc| && buf[..] == Overlay(z, o, acc)
    modifies buf
    ensures buf[..] == Overlay(z, o, acc + Put(4, v))
  {
    PutFour(v);
    OverlayAppend(z, o, acc, Put(4, v));
    buf[p] := v % 0x100;
    buf[p + 1] := v / 0x100 % 0x100;
    buf[p + 2] := v / 0x1_0000 % 0x100;
    buf[p + 3] := v / 0x100_0000 % 0x100;
    assert buf[..] == Overlay(Overlay(z, o, acc), p, Put(4, v));
  }

  method Store8(buf: array<byte>, p: nat, v: u64, ghost z: seq<byte>, ghost o: nat, ghost acc: seq<byte>)
    requires o + |acc| + 8 <= |z| == buf.Length && p == o + |acc| && buf[..] == Overlay(z, o, acc)
    modifies buf
    ensures buf[..] == Overlay(z, o, acc + Put(8, v))
  {
    PutEight(v);
    PutFour(v);
    PutLow(v);
    Store4(buf, p, v % 0x1_0000_0000, z, o, acc);
    Store4(buf, p + 4, v / 0x1_0000_0000, z, o, acc + Put(4, v % 0x1_0000_0000));
    assert acc + Put(4, v) + Put(4, v / 0x1_0000_0000) == acc + Put(8, v);
  }

  lemma PutLow(v: nat)
    ensures Put(4, v % 0x1_0000_0000) == Put(4, v)
  {
    hide Put;
    PutFour(v);
    PutFour(v % 0x1_0000_0000);
    LowDigits(v % 0x1_0000_0000, v / 0x1_0000_0000);
  }

  /** Whole multiples of 2^32 leave the low four digits alone. */
  lemma LowDigits(w: nat, q: nat)
    ensures var v := w + 0x1_0000_0000 * q;
      && v % 0x100 == w % 0x100 && v / 0x100 % 0x100 == w / 0x100 % 0x100
      && v / 0x1_0000 % 0x100 == w / 0x1_0000 % 0x100 && v / 0x100_0000 % 0x100 == w / 0x100_0000 % 0x100
  {
    LowDigit(w, 0x100_0000 * q);
    LowDigit(w / 0x100, 0x1_0000 * q);
    LowDigit(w / 0x1_0000, 0x100 * q);
    LowDigit(w / 0x100_0000, q);
  }

  lemma LowDigit(w: nat, k: nat)
    ensures (w + 0x100 * k) % 0x100 == w % 0x100
    ensures (w + 0x100 * k) / 0x100 == w / 0x100 + k
  {
  }

  method Store2(buf: array<byte>, p: nat, v: u16, ghost z: seq<byte>, ghost o: nat, ghost acc: seq<byte>)
    requires o + |acc| + 2 <= |z| == buf.Length && p == o + |acc| && buf[..] == Overlay(z, o, acc)
    modifies buf
    ensures buf[..] == Overlay(z, o, acc + Put(2, v))
  {
    PutTwo(v);
    OverlayAppend(z, o, acc, Put(2, v));
    buf[p] := v % 0x100;
    buf[p + 1] := v / 0x100 % 0x100;
    assert buf[..] == Overlay(Overlay(z, o, acc), p, Put(2, v));
  }

  method Store1(buf: array<byte>, p: nat, v: u8, ghost z: seq<byte>, ghost o: nat, ghost acc: seq<byte>)
    requires o + |acc| + 1 <= |z| == buf.Length && p == o + |acc| && buf[..] == Overlay(z, o, acc)
    modifies buf
    ensures buf[..] == Overlay(z, o, acc + [v])
  {
    OverlayAppend(z, o, acc, [v]);
    buf[p] := v;
    assert buf[..] == Overlay(Overlay(z, o, acc), p, [v]);
  }

  method StoreBytes(buf: array<byte>, p: nat, d: seq<byte>, ghost z: seq<byte>, ghost o: nat, ghost acc: seq<byte>)
    requires o + |acc| + |d| <= |z| == buf.Length && p == o + |acc| && buf[..] == Overlay(z, o, acc)
    modifies buf
    ensures buf[..] == Overlay(z, o, acc + d)
  {
    OverlayAppend(z, o, acc, d);
    forall x | 0 <= x < |d| { buf[p + x] := d[x]; }
    assert buf[..] == Overlay(Overlay(z, o, acc), p, d);
  }

  // ------------------------------------------------ the hand-written writer

  method StoreHead(buf: array<byte>, sb: SuperBlock, ghost z: seq<byte>)
    requires |z| == buf.Length >= SUPER_OFFSET + 48 && buf[..] == z && sb.Checksum == 0
    modifies buf
    ensures buf[..] == Overlay(z, SUPER_OFFSET, Head(ToDisk(sb)))
  {
    hide Put, Overlay;
    ghost var a: seq<byte> := [];
    Nothing(z, SUPER_OFFSET);
    Store4(buf, SUPER_OFFSET + 0, sb.Magic, z, SUPER_OFFSET, a);
    a := a + Put(4, sb.Magic);
    // Left zero for the checksum step to fill in.
    Store4(buf, SUPER_OFFSET + 4, 0, z, SUPER_OFFSET, a);
    a := a + Put(4, 0);
    Store4(buf, SUPER_OFFSET + 8, sb.FeatureCompat, z, SUPER_OFFSET, a);
    a := a + Put(4, sb.FeatureCompat);
    Store1(buf, SUPER_OFFSET + 12, sb.BlkSzBits, z, SUPER_OFFSET, a);
    a := a + [sb.BlkSzBits];
    Store1(buf, SUPER_OFFSET + 13, sb.SbExtSlots, z, SUPER_OFFSET, a);
    a := a + [sb.SbExtSlots];
    Store2(buf, SUPER_OFFSET + 14, sb.RootNid, z, SUPER_OFFSET, a);
    a := a + Put(2, sb.RootNid);
    Store8(buf, SUPER_OFFSET + 16, sb.Inos, z, SUPER_OFFSET, a);
    a := a + Put(8, sb.Inos);
    Store8(buf, SUPER_OFFSET + 24, sb.BuildTime, z, SUPER_OFFSET, a);
    a := a + Put(8, sb.BuildTime);
    Store4(buf, SUPER_OFFSET + 32, sb.BuildTimeNsec, z, SUPER_OFFSET, a);
    a := a + Put(4, sb.BuildTimeNsec);
    Store4(buf, SUPER_OFFSET + 36, sb.Blocks, z, SUPER_OFFSET, a);
    a := a + Put(4, sb.Blocks);
    Store4(buf, SUPER_OFFSET + 40, sb.MetaBlkAddr, z, SUPER_OFFSET, a);
    a := a + Put(4, sb.MetaBlkAddr);
    Store4(buf, SUPER_OFFSET + 44, sb.XattrBlkAddr, z, SUPER_OFFSET, a);
    a := a + Put(4, sb.XattrBlkAddr);
    assert a == Head(ToDisk(sb));
  }

  lemma Nothing(z: seq<byte>, o: nat)
    requires o <= |z|
    ensures Overlay(z, o, []) == z
  {
  }

  method StoreMiddle(buf: array<byte>, sb: SuperBlock, ghost z: seq<byte>)
    requires |z| == buf.Length >= SUPER_OFFSET + 96 && buf[..] == z
    modifies buf
    ensures buf[..] == Overlay(z, SUPER_OFFSET + 48, Middle(ToDisk(sb)))
  {
    hide Put, Overlay;
    ghost var o := SUPER_OFFSET + 48;
    ghost var a: seq<byte> := [];
    Nothing(z, o);
    StoreBytes(buf, SUPER_OFFSET + 48, sb.UUID, z, o, a);
    a := a + sb.UUID;
    StoreBytes(buf, SUPER_OFFSET + 64, sb.VolumeName, z, o, a);
    a := a + sb.VolumeName;
    Store4(buf, SUPER_OFFSET + 80, sb.FeatureIncompat, z, o, a);
    a := a + Put(4, sb.FeatureIncompat);
    Store2(buf, SUPER_OFFSET + 84, sb.CompressInfo, z, o, a);
    a := a + Put(2, sb.CompressInfo);
    Store2(buf, SUPER_OFFSET + 86, sb.ExtraDevices, z, o, a);
    a := a + Put(2, sb.ExtraDevices);
    Store2(buf, SUPER_OFFSET + 88, sb.DevtSlotOff, z, o, a);
    a := a + Put(2, sb.DevtSlotOff);
    Store1(buf, SUPER_OFFSET + 90, sb.DirBlkBits, z, o, a);
    a := a + [sb.DirBlkBits];
    Store1(buf, SUPER_OFFSET + 91, sb.XattrPrefixCount, z, o, a);
    a := a + [sb.XattrPrefixCount];
    Store4(buf, SUPER_OFFSET + 92, sb.XattrPrefixStart, z, o, a);
    a := a + Put(4, sb.XattrPrefixStart);
    assert a == Middle(ToDisk(sb));
  }

  method StoreRest(buf: array<byte>, sb: SuperBlock, ghost z: seq<byte>)
    requires |z| == buf.Length >= SUPER_OFFSET + 128 && buf[..] == z && sb.Reserved2 == seq(23, _ => 0)
    modifies buf
    ensures buf[..] == Overlay(z, SUPER_OFFSET + 96, Rest(ToDisk(sb)))
  {
    hide Put, Overlay;
    ghost var o := SUPER_OFFSET + 96;
    ghost var a: seq<byte> := [];
    Nothing(z, o);
    Store8(buf, SUPER_OFFSET + 96, sb.PackedNid, z, o, a);
    a := a + Put(8, sb.PackedNid);
    Store1(buf, SUPER_OFFSET + 104, sb.XattrFilterReserved, z, o, a);
    a := a + [sb.XattrFilterReserved];
    var i := 0;
    while i < 23
      invariant 0 <= i <= 23 && |a| == 9 && buf[..] == Overlay(z, o, a + seq(i, _ => 0))
    {
      Store1(buf, SUPER_OFFSET + 105 + i, 0, z, o, a + seq(i, _ => 0));
      assert a + seq(i, _ => 0) + [0] == a + seq(i + 1, _ => 0);
      i := i + 1;
    }
    assert a + seq(23, _ => 0) == Rest(ToDisk(sb));
  }

  /** The `WriteSuperblock` method. With blocks of 512 or 1024 bytes its buffer
      ends in front of the superblock and the source panics on the first store;
      `ok` is false then. Otherwise the buffer is zero but for the 128 bytes that
      `ToDisk` and binary.Write produce for the same record. */
  method WriteSuperblock(i: Info) returns (ok: bool, buf: array<byte>)
    requires ValidBits(i.BlkSzBits)
    ensures ok <==> i.BlkSzBits >= 11
    ensures fresh(buf) && buf.Length == Pow2(i.BlkSzBits)
    ensures ok ==>
      && buf.Length >= SUPER_OFFSET + SUPER_SIZE
      && buf[..] == Overlay(Zeros(buf.Length), SUPER_OFFSET, Encode(ToDisk(Record(i, MethodBlocks(i), i.BlkSzBits))))
    ensures ok ==>
      && buf.Length >= 1152
      && Describes(buf[..1152], i, if i.TotalBlocks % 0x1_0000_0000 == 0 then 2 else i.TotalBlocks % 0x1_0000_0000, i.BlkSzBits)
      && Get(buf[1028..1032]) == 0 && Get(buf[1032..1036]) == i.FeatureCompat - i.FeatureCompat % 2
  {
    hide Head, Middle, Rest, ToDisk, Overlay, Describes, Encode, Get;
    BlockSizes(i.BlkSzBits);
    buf := new byte[Pow2(i.BlkSzBits)](_ => 0);
    ghost var z := buf[..];
    assert z == Zeros(buf.Length);
    if buf.Length <= SUPER_OFFSET {
      return false, buf;
    }
    ok := true;
    var sb := Record(i, MethodBlocks(i), i.BlkSzBits);
    ghost var d := ToDisk(sb);
    StoreHead(buf, sb, z);
    StoreMiddle(buf, sb, buf[..]);
    OverlayAppend(z, SUPER_OFFSET, Head(d), Middle(d));
    StoreRest(buf, sb, buf[..]);
    OverlayAppend(z, SUPER_OFFSET, Head(d) + Middle(d), Rest(d));
    EncodeIs(d);
    BufferDescribes(i, buf[..]);
  }

  lemma EncodeIs(d: SuperBlockOnDisk)
    ensures Encode(d) == Head(d) + Middle(d) + Rest(d)
  {
  }

  lemma BufferDescribes(i: Info, buf: seq<byte>)
    requires |buf| >= SUPER_OFFSET + SUPER_SIZE
    requires buf == Overlay(Zeros(|buf|), SUPER_OFFSET, Encode(ToDisk(Record(i, MethodBlocks(i), i.BlkSzBits))))
    ensures Describes(buf[..1152], i, MethodBlocks(i), i.BlkSzBits)
    ensures Get(buf[1028..1032]) == 0 && Get(buf[1032..1036]) == i.FeatureCompat - i.FeatureCompat % 2
  {
    hide Encode, ToDisk, Describes, Get;
    RecordDescribes(i, MethodBlocks(i), i.BlkSzBits);
    var w := Zeros(1024) + Encode(ToDisk(Record(i, MethodBlocks(i), i.BlkSzBits)));
    assert buf[..1152] == w && buf[1028..1032] == w[1028..1032] && buf[1032..1036] == w[1032..1036];
  }

  /** The two writers put the same 128 bytes into the image if and only if the
      block counts agree and the block size bits are zero, which they never are:
      one writer leaves the directory block bits at zero. */
  lemma WritersAgreeIff(i: Info, blocks: u32)
    ensures Encode(ToDisk(Record(i, blocks, 0))) == Encode(ToDisk(Record(i, MethodBlocks(i), i.BlkSzBits)))
      <==> blocks == MethodBlocks(i) && i.BlkSzBits == 0
  {
    if Encode(ToDisk(Record(i, blocks, 0))) == Encode(ToDisk(Record(i, MethodBlocks(i), i.BlkSzBits))) {
      ImagesDiffer(Record(i, blocks, 0), Record(i, MethodBlocks(i), i.BlkSzBits));
    }
  }

  // ------------------------------------------------------------ the checksum

  const SEED: word := 0xFFFF_FFFF

  /** Blocks that `ErofsEnableSbChksum` reads: up to the one behind which the
      superblock ends. */
  function ReadBlocks(bits: nat): nat {
    DivMod(SUPER_OFFSET + SUPER_SIZE, Pow2(bits));
    (SUPER_OFFSET + SUPER_SIZE) / Pow2(bits) + 1
  }

  /** The first `n` bytes of the device; what is behind its end reads as zero. */
  function ReadDevice(dev: seq<byte>, n: nat): (r: seq<byte>)
    ensures |r| == n
    ensures forall x :: 0 <= x < n ==> r[x] == if x < |dev| then dev[x] else 0
  {
    seq(n, x requires 0 <= x < n => if x < |dev| then dev[x] else 0)
  }

  lemma ReadCoversSuperblock(bits: nat)
    requires ValidBits(bits)
    ensures SUPER_OFFSET + SUPER_SIZE < ReadBlocks(bits) * Pow2(bits) <= 4096
    ensures Pow2(bits) <= ReadBlocks(bits) * Pow2(bits)
    ensures Pow2(bits) <= SUPER_OFFSET <==> bits < 11
    ensures Pow2(bits) <= SUPER_OFFSET ==> SUPER_OFFSET + Pow2(bits) <= 4096
  {
    BlockSizes(bits);
  }

  function SumLength(bits: nat): nat {
    if Pow2(bits) > SUPER_OFFSET then Pow2(bits) - SUPER_OFFSET else Pow2(bits)
  }

  /** The buffer of `ErofsEnableSbChksum` after the read. */
  function ReadBuffer(dev: seq<byte>, bits: nat): seq<byte>
    requires ValidBits(bits)
  {
    ReadCoversSuperblock(bits);
    var n := ReadBlocks(bits) * Pow2(bits);
    ReadDevice(dev, n) + Zeros(4096 - n)
  }

  /** Turns on the lowest bit. */
  function WithChecksumBit(f: u32): u32 { if f % 2 == 1 then f else f + 1 }

  lemma ChecksumBitSet(f: u32)
    ensures BitOr(f, 1) == WithChecksumBit(f)
  {
    OrZero(f / 2);
  }

  /** The buffer with the lowest bit of the compatible features turned on. */
  function Flagged(buf: seq<byte>): (r: seq<byte>)
    requires |buf| == 4096
    ensures |r| == 4096
    ensures forall x :: 0 <= x < 4096 && !(1032 <= x < 1036) ==> r[x] == buf[x]
  {
    Bounds(buf[1032..1036]);
    Overlay(buf, 1032, Put(4, WithChecksumBit(Get(buf[1032..1036]))))
  }

  /** Sets the feature bit and stores the checksum of `n` bytes from there on. */
  function Summed(buf: seq<byte>, n: nat): seq<byte>
    requires |buf| >= SUPER_OFFSET + SUPER_SIZE && SUPER_OFFSET + n <= |buf|
  {
    Bounds(buf[1032..1036]);
    var b := Overlay(buf, 1032, Put(4, WithChecksumBit(Get(buf[1032..1036]))));
    Overlay(b, 1028, Put(4, Crc(SEED, b[SUPER_OFFSET..SUPER_OFFSET + n])))
  }

  /** The checksum of the superblock of `dev` with the feature bit set. */
  function StoredSum(dev: seq<byte>, bits: nat): word
    requires ValidBits(bits)
  {
    ReadLength(bits);
    var buf := ReadBuffer(dev, bits);
    Crc(SEED, Flagged(buf)[SUPER_OFFSET..SUPER_OFFSET + SumLength(bits)])
  }

  const EFAULT := 14

  /** `ErofsEnableSbChksum` on the image `dev`, with complete reads and writes. */
  method ErofsEnableSbChksum(dev: seq<byte>, bits: nat) returns (ret: int, crc: word, dev': seq<byte>)
    requires ValidBits(bits)
    ensures |ReadBuffer(dev, bits)| == 4096 && Pow2(bits) <= 4096
    ensures ret == if Get(ReadBuffer(dev, bits)[1024..1028]) == 0xE0F5_E1E2 then 0 else -14
    ensures ret != 0 ==> dev' == dev
    ensures ret == 0 ==> dev' == Enabled(dev, bits) && crc == StoredSum(dev, bits)
    // The checksum without its seed: it starts from zero with the first four bytes
    // inverted. With blocks of at least 2048 bytes it ends up in the image.
    ensures ret == 0 ==>
      var n := if bits >= 11 then Pow2(bits) - 1024 else Pow2(bits);
      && 128 <= n && 1024 + n <= 4096
      && crc == Crc(0, Inverted(Flagged(ReadBuffer(dev, bits))[1024..1024 + n]))
    ensures ret == 0 && bits >= 11 ==> |dev'| >= 1152 && Get(dev'[1028..1032]) == crc
  {
    hide Crc, Get, Put, ReadBuffer, Inverted;
    BufferLength(dev, bits);
    ReadLength(bits);
    BlockSizes(bits);
    var blksiz := Pow2(bits);
    var buf := ReadBuffer(dev, bits);
    crc := 0;
    if Get(buf[SUPER_OFFSET..SUPER_OFFSET + 4]) != MAGIC {
      return -EFAULT, crc, dev;
    }
    // The feature bit counts into the checksum.
    Bounds(buf[1032..1036]);
    buf := Overlay(buf, 1032, Put(4, WithChecksumBit(Get(buf[1032..1036]))));
    var length := if blksiz > SUPER_OFFSET then blksiz - SUPER_OFFSET else blksiz;
    crc := Crc32c.Crc32c(SEED, buf[SUPER_OFFSET..SUPER_OFFSET + length]);
    buf := Overlay(buf, 1028, Put(4, crc));
    StoredSumIs(dev, bits);
    return 0, crc, Pwrite(dev, 0, buf[..blksiz]);
  }

  /** The checksum of the source starts from all ones, and with large blocks it is
      stored in the image. */
  lemma StoredSumIs(dev: seq<byte>, bits: nat)
    requires ValidBits(bits)
    ensures |ReadBuffer(dev, bits)| == 4096
    ensures var n := if bits >= 11 then Pow2(bits) - 1024 else Pow2(bits);
      && 128 <= n && 1024 + n <= 4096
      && StoredSum(dev, bits) == Crc(0, Inverted(Flagged(ReadBuffer(dev, bits))[1024..1024 + n]))
    ensures bits >= 11 ==>
      |Enabled(dev, bits)| >= 1152 && Get(Enabled(dev, bits)[1028..1032]) == StoredSum(dev, bits)
  {
    hide Crc, Get, Put, ReadBuffer, Inverted, Flagged;
    ReadLength(bits);
    SumLengthIs(bits);
    BufferLength(dev, bits);
    var buf, n := ReadBuffer(dev, bits), SumLength(bits);
    FromAllOnes(Flagged(buf)[1024..1024 + n]);
    SummedIs(buf, n);
    if bits >= 11 {
      NumberRoundTrip(StoredSum(dev, bits));
      var b := Summed(buf, n)[..Pow2(bits)];
      assert Pwrite(dev, 0, b)[1028..1032] == b[1028..1032] == Summed(buf, n)[1028..1032];
    }
  }

  lemma SummedIs(buf: seq<byte>, n: nat)
    requires |buf| == 4096 && SUPER_OFFSET + n <= 4096
    ensures |Summed(buf, n)| == 4096
    ensures Summed(buf, n)[1028..1032] == Put(4, Crc(SEED, Flagged(buf)[SUPER_OFFSET..SUPER_OFFSET + n]))
  {
    hide Crc, Get, Put;
  }

  // ------------------------------------------------------------ verification

  lemma ReadLength(bits: nat)
    requires ValidBits(bits)
    ensures ReadBlocks(bits) * Pow2(bits) == SUPER_OFFSET + SumLength(bits) <= 4096
    ensures bits >= 11 <==> Pow2(bits) == SUPER_OFFSET + SumLength(bits)
    ensures bits < 11 <==> Pow2(bits) <= SUPER_OFFSET
    ensures SumLength(bits) >= 512
  {
    BlockSizes(bits);
  }

  /** The bytes a checksum is taken of: from the superblock on, with the checksum
      field zeroed. */
  function SummedPart(buf: seq<byte>, n: nat): (r: seq<byte>)
    requires n >= SUPER_SIZE && SUPER_OFFSET + n <= |buf|
    ensures |r| == n
    ensures forall x :: 0 <= x < n ==> r[x] == if 4 <= x < 8 then 0 else buf[SUPER_OFFSET + x]
  {
    Overlay(buf, 1028, Zeros(4))[SUPER_OFFSET..SUPER_OFFSET + n]
  }

  /** What a reader of the image checks: magic number, feature bit, checksum. */
  predicate Verifies(dev: seq<byte>, bits: nat)
    requires ValidBits(bits)
  {
    ReadLength(bits);
    var buf := ReadBuffer(dev, bits);
    && Get(buf[1024..1028]) == MAGIC
    && Get(buf[1032..1036]) % 2 == 1
    && Get(buf[1028..1032]) == Crc(SEED, SummedPart(buf, SumLength(bits)))
  }

  lemma ZeroPut()
    ensures Put(4, 0) == Zeros(4) && Get(Zeros(4)) == 0
  {
    PutFour(0);
    Spans();
    GetPut(4, 0);
  }

  /** The buffer after the step verifies, when the checksum field was zero. */
  lemma SummedVerifies(buf: seq<byte>, n: nat)
    requires |buf| == 4096 && SUPER_SIZE <= n && SUPER_OFFSET + n <= |buf|
    requires buf[1028..1032] == Zeros(4)
    ensures var b := Summed(buf, n);
      && |b| == 4096 && b[1024..1028] == buf[1024..1028]
      && Get(b[1032..1036]) % 2 == 1
      && Get(b[1028..1032]) == Crc(SEED, SummedPart(b, n))
  {
    hide Crc, Get, Put;
    Bounds(buf[1032..1036]);
    var f := WithChecksumBit(Get(buf[1032..1036]));
    var b1 := Overlay(buf, 1032, Put(4, f));
    var c := Crc(SEED, b1[SUPER_OFFSET..SUPER_OFFSET + n]);
    var b := Overlay(b1, 1028, Put(4, c));
    NumberRoundTrip(f);
    NumberRoundTrip(c);
    assert b[1032..1036] == Put(4, f);
    assert b[1028..1032] == Put(4, c);
    assert Overlay(b, 1028, Zeros(4)) == b1 by {
      forall x | 0 <= x < 4096 ensures Overlay(b, 1028, Zeros(4))[x] == b1[x] {
        if 1028 <= x < 1032 { assert buf[x] == buf[1028..1032][x - 1028]; }
      }
    }
  }

  lemma BufferLength(dev: seq<byte>, bits: nat)
    requires ValidBits(bits)
    ensures |ReadBuffer(dev, bits)| == 4096
  {
    ReadCoversSuperblock(bits);
  }

  lemma ReadBack(dev: seq<byte>, bits: nat, d: seq<byte>)
    requires ValidBits(bits) && |d| == Pow2(bits)
    ensures |ReadBuffer(dev, bits)| == 4096 && |ReadBuffer(Pwrite(dev, 0, d), bits)| == 4096
    ensures forall x :: 0 <= x < 4096 ==>
      ReadBuffer(Pwrite(dev, 0, d), bits)[x] == if x < |d| then d[x] else ReadBuffer(dev, bits)[x]
  {
    ReadCoversSuperblock(bits);
  }

  /** A superblock without checksum, as `WriteSuperBlock` leaves it. */
  predicate Unsummed(dev: seq<byte>, bits: nat)
    requires ValidBits(bits)
  {
    ReadLength(bits);
    var buf := ReadBuffer(dev, bits);
    Get(buf[1024..1028]) == MAGIC && buf[1028..1032] == Zeros(4) && Get(buf[1032..1036]) % 2 == 0
  }

  /** The image `ErofsEnableSbChksum` leaves behind. */
  function Enabled(dev: seq<byte>, bits: nat): seq<byte>
    requires ValidBits(bits)
  {
    ReadLength(bits);
    Pwrite(dev, 0, Summed(ReadBuffer(dev, bits), SumLength(bits))[..Pow2(bits)])
  }

  /** Bytes that the checksum of the source covers, from the superblock on. */
  lemma SumLengthIs(bits: nat)
    requires ValidBits(bits)
    ensures SumLength(bits) == if bits >= 11 then Pow2(bits) - 1024 else Pow2(bits)
  {
    BlockSizes(bits);
  }

  /** The magic number as it lies in the image, and with every bit turned. */
  lemma MagicBytes(s: seq<byte>)
    requires |s| == 4
    ensures Get(s) == MAGIC <==> s == [0xE2, 0xE1, 0xF5, 0xE0]
  {
    Spans();
    GetPut(4, MAGIC);
    PutFour(MAGIC);
    if s != [0xE2, 0xE1, 0xF5, 0xE0] { GetInjective(s, Put(4, MAGIC)); }
  }

  /** What an image that verifies holds, without the seed of the source: the stored
      checksum starts from zero, over the inverted magic number, four zeros for its
      own field, and the rest of the checksummed part. */
  lemma VerifiesIff(dev: seq<byte>, bits: nat)
    requires ValidBits(bits) && |dev| >= (if bits >= 11 then Pow2(bits) else 1024 + Pow2(bits))
    ensures var end := if bits >= 11 then Pow2(bits) else 1024 + Pow2(bits);
      && 1152 <= end <= 4096
      && (Verifies(dev, bits) <==>
            && dev[1024..1028] == [0xE2, 0xE1, 0xF5, 0xE0]
            && dev[1032] % 2 == 1
            && Get(dev[1028..1032]) == Crc(0, [0x1D, 0x1E, 0x0A, 0x1F, 0, 0, 0, 0] + dev[1032..end]))
  {
    hide Crc, Get, ReadBuffer;
    BlockSizes(bits);
    ReadLength(bits);
    SumLengthIs(bits);
    BufferLength(dev, bits);
    BufferIsDevice(dev, bits);
    var buf, n := ReadBuffer(dev, bits), SumLength(bits);
    MagicBytes(dev[1024..1028]);
    LowBitOfWord(dev[1032..1036]);
    SameFront(buf, dev, 1024 + n);
    FromAllOnes(SummedPart(buf, n));
    if dev[1024..1028] == [0xE2, 0xE1, 0xF5, 0xE0] { InvertedPart(dev, buf, n); }
  }

  lemma BufferIsDevice(dev: seq<byte>, bits: nat)
    requires ValidBits(bits) && |dev| >= SUPER_OFFSET + SumLength(bits)
    ensures SUPER_OFFSET + SumLength(bits) <= 4096
    ensures ReadBuffer(dev, bits) == dev[..SUPER_OFFSET + SumLength(bits)] + Zeros(4096 - SUPER_OFFSET - SumLength(bits))
  {
    ReadLength(bits);
  }

  lemma SameFront(u: seq<byte>, v: seq<byte>, n: nat)
    requires 1152 <= n <= |u| && n <= |v| && u[..n] == v[..n]
    ensures u[1024..1028] == v[1024..1028] && u[1028..1032] == v[1028..1032] && u[1032..1036] == v[1032..1036]
  {
    assert forall x :: 0 <= x < n ==> u[x] == u[..n][x] == v[..n][x] == v[x];
  }

  lemma LowBitOfWord(s: seq<byte>)
    requires |s| == 4
    ensures Get(s) % 2 == s[0] % 2
  {
    LowestBit(s[0], Get(s[1..]));
  }

  lemma InvertedPart(dev: seq<byte>, buf: seq<byte>, n: nat)
    requires n >= SUPER_SIZE && SUPER_OFFSET + n <= |buf| && SUPER_OFFSET + n <= |dev|
    requires buf[..SUPER_OFFSET + n] == dev[..SUPER_OFFSET + n] && dev[1024..1028] == [0xE2, 0xE1, 0xF5, 0xE0]
    ensures Inverted(SummedPart(buf, n)) == [0x1D, 0x1E, 0x0A, 0x1F, 0, 0, 0, 0] + dev[1032..1024 + n]
  {
    var p := SummedPart(buf, n);
    forall x | 0 <= x < n ensures 4 <= x < 8 || p[x] == dev[1024 + x] {
      assert buf[..SUPER_OFFSET + n][1024 + x] == dev[..SUPER_OFFSET + n][1024 + x];
    }
    forall x | 0 <= x < 4 ensures p[x] == dev[1024..1028][x] {}
  }

  /** The checksum step succeeds on a written superblock, and the image verifies
      afterwards if and only if a block has at least 2048 bytes. With smaller
      blocks the superblock lies behind the one block that is written back. */
  lemma ChecksumVerifiesIff(dev: seq<byte>, bits: nat)
    requires ValidBits(bits) && Unsummed(dev, bits)
    ensures Verifies(Enabled(dev, bits), bits) <==> Pow2(bits) >= 2048
  {
    hide Crc, Get, Put, Summed, ReadBuffer;
    ReadLength(bits);
    BlockSizes(bits);
    var buf := ReadBuffer(dev, bits);
    var n := SumLength(bits);
    BufferLength(dev, bits);
    SummedVerifies(buf, n);
    var b := Summed(buf, n);
    ReadBack(dev, bits, b[..Pow2(bits)]);
    var buf' := ReadBuffer(Enabled(dev, bits), bits);
    if bits >= 11 {
      assert buf'[1024..1028] == b[1024..1028] && buf'[1028..1032] == b[1028..1032] && buf'[1032..1036] == b[1032..1036];
      assert SummedPart(buf', n) == SummedPart(b, n);
    } else {
      assert buf'[1032..1036] == buf[1032..1036];
    }
  }

  /** An error changes neither the magic number nor the checksum feature, and the
      checksum of what it does to the data is what it does to the stored one. */
  predicate Passes(u: seq<byte>, v: seq<byte>, n: nat)
    requires |u| == |v| == 4096 && SUPER_SIZE <= n && SUPER_OFFSET + n <= 4096
  {
    Bounds(u[1028..1032]);
    Bounds(v[1028..1032]);
    && u[1024..1028] == v[1024..1028]
    && Get(v[1032..1036]) % 2 == 1
    && XorW(Get(u[1028..1032]), Get(v[1028..1032])) == Crc(0, XorBytes(SummedPart(u, n), SummedPart(v, n)))
  }

  /** Exactly the errors with this property stay undetected, whatever their extent. */
  lemma UndetectedIff(dev: seq<byte>, bad: seq<byte>, bits: nat)
    requires ValidBits(bits) && Verifies(dev, bits)
    ensures |ReadBuffer(dev, bits)| == |ReadBuffer(bad, bits)| == 4096
    ensures SUPER_SIZE <= SumLength(bits) && SUPER_OFFSET + SumLength(bits) <= 4096
    ensures Verifies(bad, bits) <==> Passes(ReadBuffer(dev, bits), ReadBuffer(bad, bits), SumLength(bits))
  {
    hide Crc, Get, ReadBuffer, XorW, XorBytes;
    ReadLength(bits);
    BufferLength(dev, bits);
    BufferLength(bad, bits);
    var u, v, n := ReadBuffer(dev, bits), ReadBuffer(bad, bits), SumLength(bits);
    Bounds(u[1028..1032]);
    Bounds(v[1028..1032]);
    if u[1024..1028] != v[1024..1028] { GetInjective(u[1024..1028], v[1024..1028]); }
    CrcDifference(SEED, SummedPart(u, n), SummedPart(v, n));
    SameDifference(Get(u[1028..1032]), Get(v[1028..1032]), Crc(SEED, SummedPart(v, n)));
  }

  lemma SameDifference(x: word, y: word, z: word)
    ensures XorW(x, y) == XorW(x, z) <==> y == z
  {
    XorCommutes(x, y);
    XorCommutes(x, z);
    if XorW(x, y) == XorW(x, z) { XorCancel(y, z, x); }
  }

  /** An error that changes an odd number of bits, in the data and in the stored
      checksum together, is always detected. */
  lemma OddCorruptionDetected(dev: seq<byte>, bad: seq<byte>, bits: nat)
    requires ValidBits(bits) && Verifies(dev, bits)
    requires |ReadBuffer(dev, bits)| == |ReadBuffer(bad, bits)| == 4096
    requires SUPER_SIZE <= SumLength(bits) && SUPER_OFFSET + SumLength(bits) <= 4096
    requires var u, v, n := ReadBuffer(dev, bits), ReadBuffer(bad, bits), SumLength(bits);
      (Odd(Get(u[1028..1032])) == Odd(Get(v[1028..1032])))
      != (OddData(SummedPart(u, n)) == OddData(SummedPart(v, n)))
    ensures !Verifies(bad, bits)
  {
    hide Crc, Get, ReadBuffer, Odd, OddData;
    ParityOfCrc(SEED, SummedPart(ReadBuffer(dev, bits), SumLength(bits)));
    ParityOfCrc(SEED, SummedPart(ReadBuffer(bad, bits), SumLength(bits)));
  }

  /** Five bytes are too many: in every image that verifies, some change of the
      checksum field and of the byte behind it stays undetected. */
  lemma FiveBytesCanPass(dev: seq<byte>, bits: nat) returns (bad: seq<byte>)
    requires ValidBits(bits) && Verifies(dev, bits) && |dev| >= 1033
    ensures |bad| == |dev| && bad != dev && Verifies(bad, bits)
    ensures forall x :: 0 <= x < |dev| && !(1028 <= x < 1033) ==> bad[x] == dev[x]
  {
    hide Crc, Get, Put;
    ReadLength(bits);
    var n := SumLength(bits);
    var mid := Overlay(dev, 1032, [Toggled(dev[1032])]);
    var c := Crc(SEED, SummedPart(ReadBuffer(mid, bits), n));
    bad := Overlay(mid, 1028, Put(4, c));
    NumberRoundTrip(c);
    BufferLength(dev, bits);
    var u, v := ReadBuffer(dev, bits), ReadBuffer(bad, bits);
    assert v[1028..1032] == Put(4, c);
    assert SummedPart(v, n) == SummedPart(ReadBuffer(mid, bits), n);
    assert v[1024..1028] == u[1024..1028];
    SameParity(u[1032..1036], v[1032..1036]);
    assert bad[1032] != dev[1032];
  }

  /** A byte with its second bit changed. */
  function Toggled(b: byte): byte { if b / 2 % 2 == 1 then b - 2 else b + 2 }

  /** The lowest bit of a number is that of its first byte. */
  lemma SameParity(s: seq<byte>, t: seq<byte>)
    requires s != [] && t != [] && t[0] == Toggled(s[0])
    ensures Get(s) % 2 == Get(t) % 2
  {
    LowestBit(s[0], Get(s[1..]));
    LowestBit(t[0], Get(t[1..]));
  }

  lemma LowestBit(b: nat, g: nat)
    ensures (b + 256 * g) % 2 == b % 2
  {
  }

  /** Byte positions at which a four-byte error is always detected: all of the
      checksummed part, but for those that reach from inside the checksum field
      into the bytes behind it. */
  predicate Window(p: nat, n: nat) {
    SUPER_OFFSET <= p && p + 4 <= SUPER_OFFSET + n && (p <= 1028 || 1032 <= p)
  }

  lemma SplitWindow(a: seq<byte>, b: seq<byte>, q: nat)
    requires |a| == |b| && q + 4 <= |a|
    requires forall x :: 0 <= x < |a| && !(q <= x < q + 4) ==> a[x] == b[x]
    requires a[q..q + 4] != b[q..q + 4]
    ensures Crc(SEED, a) != Crc(SEED, b)
  {
    hide Crc;
    BurstDetected(SEED, a[..q], a[q..q + 4], b[q..q + 4], a[q + 4..]);
    assert a == a[..q] + a[q..q + 4] + a[q + 4..];
    assert b == a[..q] + b[q..q + 4] + a[q + 4..];
  }

  lemma SummedDiffer(u: seq<byte>, v: seq<byte>, n: nat, p: nat)
    requires |u| == |v| == 4096 && SUPER_SIZE <= n && SUPER_OFFSET + n <= 4096 && Window(p, n) && (p == 1024 || 1032 <= p)
    requires forall x :: 0 <= x < 4096 && !(p <= x < p + 4) ==> u[x] == v[x]
    requires u[p..p + 4] != v[p..p + 4]
    ensures Crc(SEED, SummedPart(u, n)) != Crc(SEED, SummedPart(v, n))
  {
    hide Crc;
    var a, b := SummedPart(u, n), SummedPart(v, n);
    var q := p - SUPER_OFFSET;
    assert a[q..q + 4] == u[p..p + 4] && b[q..q + 4] == v[p..p + 4];
    SplitWindow(a, b, q);
  }

  lemma BuffersDiffer(dev: seq<byte>, bad: seq<byte>, bits: nat, p: nat)
    requires ValidBits(bits) && Window(p, SumLength(bits))
    requires |bad| == |dev| >= SUPER_OFFSET + SumLength(bits)
    requires forall x :: 0 <= x < |dev| && !(p <= x < p + 4) ==> bad[x] == dev[x]
    requires bad != dev
    ensures p + 4 <= 4096 && |ReadBuffer(dev, bits)| == |ReadBuffer(bad, bits)| == 4096
    ensures var u, v := ReadBuffer(dev, bits), ReadBuffer(bad, bits);
      && u[p..p + 4] != v[p..p + 4]
      && forall x :: 0 <= x < 4096 && !(p <= x < p + 4) ==> u[x] == v[x]
  {
    ReadLength(bits);
    WindowDiffers(dev, bad, p);
    var u, v := ReadBuffer(dev, bits), ReadBuffer(bad, bits);
    assert u[p..p + 4] == dev[p..p + 4] && v[p..p + 4] == bad[p..p + 4];
  }

  /** An image that verifies no longer does after any change confined to four
      consecutive bytes of such a window. */
  lemma CorruptionDetected(dev: seq<byte>, bad: seq<byte>, bits: nat, p: nat)
    requires ValidBits(bits) && Verifies(dev, bits) && Window(p, SumLength(bits))
    requires |bad| == |dev| >= SUPER_OFFSET + SumLength(bits)
    requires forall x :: 0 <= x < |dev| && !(p <= x < p + 4) ==> bad[x] == dev[x]
    requires bad != dev
    ensures !Verifies(bad, bits)
  {
    hide Crc, Get, ReadBuffer;
    ReadLength(bits);
    var n := SumLength(bits);
    BuffersDiffer(dev, bad, bits, p);
    var u, v := ReadBuffer(dev, bits), ReadBuffer(bad, bits);
    if 1024 < p <= 1028 {
      if u[1024..1028] != v[1024..1028] {
        GetInjective(u[1024..1028], v[1024..1028]);
      } else {
        OnlyStored(u, v, n, p);
        GetInjective(u[1028..1032], v[1028..1032]);
      }
    } else {
      assert u[1028..1032] == v[1028..1032];
      SummedDiffer(u, v, n, p);
    }
  }

  /** An error around the start of the checksum field that spares the magic number
      changes the stored checksum and nothing that is summed. */
  lemma OnlyStored(u: seq<byte>, v: seq<byte>, n: nat, p: nat)
    requires |u| == |v| == 4096 && SUPER_SIZE <= n && SUPER_OFFSET + n <= 4096 && 1024 < p <= 1028
    requires forall x :: 0 <= x < 4096 && !(p <= x < p + 4) ==> u[x] == v[x]
    requires u[p..p + 4] != v[p..p + 4] && u[1024..1028] == v[1024..1028]
    ensures SummedPart(u, n) == SummedPart(v, n) && u[1028..1032] != v[1028..1032]
  {
    forall x | p <= x < 1028 ensures u[x] == v[x] {
      assert u[1024..1028][x - 1024] == v[1024..1028][x - 1024];
    }
    if u[1028..1032] == v[1028..1032] { SameWindow(u, v, p); }
  }

  lemma SameWindow(u: seq<byte>, v: seq<byte>, p: nat)
    requires |u| == |v| == 4096 && 1024 < p <= 1028
    requires u[1024..1028] == v[1024..1028] && u[1028..1032] == v[1028..1032]
    ensures u[p..p + 4] == v[p..p + 4]
  {
    forall x | p <= x < p + 4 ensures u[x] == v[x] {
      if x < 1028 {
        assert u[1024..1028][x - 1024] == v[1024..1028][x - 1024];
      } else {
        assert u[1028..1032][x - 1028] == v[1028..1032][x - 1028];
      }
    }
  }

  lemma WindowDiffers(dev: seq<byte>, bad: seq<byte>, p: nat)
    requires |bad| == |dev| >= p + 4 && bad != dev
    requires forall x :: 0 <= x < |dev| && !(p <= x < p + 4) ==> bad[x] == dev[x]
    ensures dev[p..p + 4] != bad[p..p + 4]
  {
    if dev[p..p + 4] == bad[p..p + 4] {
      forall x | 0 <= x < |dev| ensures dev[x] == bad[x] {
        if p <= x < p + 4 { assert dev[x] == dev[p..p + 4][x - p]; }
      }
    }
  }

  lemma GetInjective(s: seq<byte>, t: seq<byte>)
    requires |s| == |t| && s != t
    ensures Get(s) != Get(t)
  {
    PutGet(s);
    PutGet(t);
  }

  // ------------------------------------------------------ the mkfs writer

  /** The bytes `WriteSuperBlock` puts at the start of the image. */
  function SuperImage(i: Info, blocks: u32): (r: seq<byte>)
    ensures |r| == SUPER_OFFSET + SUPER_SIZE
  {
    Zeros(SUPER_OFFSET) + Encode(ToDisk(Record(i, blocks, 0)))
  }

  lemma SuperImageFields(i: Info, blocks: u32)
    ensures var s := SuperImage(i, blocks);
      && Get(s[1024..1028]) == MAGIC && s[1028..1032] == Zeros(4) && Get(s[1032..1036]) % 2 == 0
  {
    hide Get, Put, Head, Middle, Rest;
    var d := ToDisk(Record(i, blocks, 0));
    HeadFields(d);
    var h := Head(d);
    var s := SuperImage(i, blocks);
    assert s[1024..1072] == h;
    assert s[1024..1028] == s[1024..1072][0..4] && s[1028..1032] == s[1024..1072][4..8];
    assert s[1032..1036] == s[1024..1072][8..12];
    ZeroPut();
    NumberRoundTrip(MAGIC);
    NumberRoundTrip(WithoutChecksumBit(i.FeatureCompat));
  }

  /** The superblock as written has no checksum yet. */
  lemma WrittenIsUnsummed(dev: seq<byte>, i: Info, blocks: u32, bits: nat)
    requires ValidBits(bits)
    ensures Unsummed(Pwrite(dev, 0, SuperImage(i, blocks)), bits)
  {
    hide Get, SuperImage;
    ReadCoversSuperblock(bits);
    SuperImageFields(i, blocks);
    var s := SuperImage(i, blocks);
    var buf := ReadBuffer(Pwrite(dev, 0, s), bits);
    assert forall x :: 0 <= x < |s| ==> buf[x] == s[x];
    assert buf[1024..1028] == s[1024..1028] && buf[1028..1032] == s[1028..1032] && buf[1032..1036] == s[1032..1036];
  }

  // --------------------------------------------------- what a reader finds

  /** The written superblock, field by field. */
  lemma SuperImageDescribes(i: Info, blocks: u32)
    ensures var s := SuperImage(i, blocks);
      && Describes(s, i, blocks, 0)
      && Get(s[1060..1064]) == blocks && Get(s[1064..1068]) == i.MetaBlkAddr
      && Get(s[1028..1032]) == 0 && Get(s[1032..1036]) == i.FeatureCompat - i.FeatureCompat % 2
  {
    hide Encode, ToDisk, Get, Record;
    RecordDescribes(i, blocks, 0);
    var s := SuperImage(i, blocks);
    assert s[1060..1064] == s[1024..][36..40] && s[1064..1068] == s[1024..][40..44];
  }

  /** Wherever it is written, it is found there. */
  lemma WrittenDescribes(dev: seq<byte>, pos: nat, i: Info, blocks: u32)
    ensures var d := Pwrite(dev, pos, SuperImage(i, blocks));
      && pos + 1152 <= |d| && Describes(d[pos..pos + 1152], i, blocks, 0)
      && Get(d[pos + 1060..pos + 1064]) == blocks
  {
    hide Describes, SuperImage, Get;
    SuperImageDescribes(i, blocks);
    var d := Pwrite(dev, pos, SuperImage(i, blocks));
    assert d[pos..pos + 1152] == SuperImage(i, blocks);
    assert d[pos + 1060..pos + 1064] == SuperImage(i, blocks)[1060..1064];
  }

  /** The description depends on all bytes but those of the checksum and the
      compatible features. */
  lemma DescribesStays(w: seq<byte>, v: seq<byte>, i: Info, blocks: nat, dirBlkBits: nat)
    requires Describes(w, i, blocks, dirBlkBits) && |v| == 1152
    requires forall x :: 0 <= x < 1152 && !(1028 <= x < 1036) ==> v[x] == w[x]
    ensures Describes(v, i, blocks, dirBlkBits)
  {
    hide Get;
    assert v[..1024] == w[..1024];
    var d, e := w[1024..], v[1024..];
    assert e[0..4] == d[0..4];
    Later(d, e);
  }

  lemma Later(d: seq<byte>, e: seq<byte>)
    requires |d| == |e| == 128 && forall x :: 12 <= x < 128 ==> e[x] == d[x]
    ensures e[14..16] == d[14..16] && e[16..24] == d[16..24] && e[24..32] == d[24..32] && e[32..36] == d[32..36]
    ensures e[36..40] == d[36..40] && e[40..44] == d[40..44] && e[44..48] == d[44..48] && e[48..64] == d[48..64]
    ensures e[64..80] == d[64..80] && e[80..84] == d[80..84] && e[84..86] == d[84..86] && e[86..88] == d[86..88]
    ensures e[88..90] == d[88..90] && e[92..96] == d[92..96] && e[96..104] == d[96..104] && e[105..128] == d[105..128]
  {
  }

  /** Where the block count is. */
  lemma BlocksAt(d: seq<byte>, i: Info, blocks: nat, dirBlkBits: nat)
    requires |d| >= 1152 && Describes(d[..1152], i, blocks, dirBlkBits)
    ensures Get(d[1060..1064]) == blocks && Get(d[1064..1068]) == i.MetaBlkAddr
  {
    hide Get;
    Inner(d, 36, 40);
    Inner(d, 40, 44);
  }

  lemma Inner(d: seq<byte>, p: nat, q: nat)
    requires |d| >= 1152 && p <= q <= 128
    ensures d[1024 + p..1024 + q] == d[..1152][1024..][p..q]
  {
    var w := d[..1152][1024..];
    var u, v := d[1024 + p..1024 + q], w[p..q];
    assert |u| == |v| && forall x :: 0 <= x < |u| ==> u[x] == d[1024 + p + x] == w[p + x] == v[x];
  }
}
