/** The superblock record of pkg/types/superblock.go, its two serializers, and
    the record each of them is given. */
module SuperBlocks {
  import opened Rounding
  import opened Objects
  import opened LittleEndian

  const MAGIC := 0xE0F5_E1E2
  const SUPER_OFFSET: nat := 1024
  const SUPER_SIZE: nat := 128

  type u8 = byte
  type u16 = x: nat | x < 0x1_0000
  type u32 = x: nat | x < 0x1_0000_0000
  type u64 = x: nat | x < 0x1_0000_0000_0000_0000

  type b2 = s: seq<byte> | |s| == 2 witness [0, 0]
  type b4 = s: seq<byte> | |s| == 4 witness [0, 0, 0, 0]
  type b8 = s: seq<byte> | |s| == 8 witness [0, 0, 0, 0, 0, 0, 0, 0]
  type b16 = s: seq<byte> | |s| == 16 witness seq(16, _ => 0)
  type b23 = s: seq<byte> | |s| == 23 witness seq(23, _ => 0)

  datatype SuperBlock = SuperBlock(
    Magic: u32, Checksum: u32, FeatureCompat: u32, BlkSzBits: u8, SbExtSlots: u8, RootNid: u16,
    Inos: u64, BuildTime: u64, BuildTimeNsec: u32, Blocks: u32, MetaBlkAddr: u32, XattrBlkAddr: u32,
    UUID: b16, VolumeName: b16, FeatureIncompat: u32, CompressInfo: u16, ExtraDevices: u16,
    DevtSlotOff: u16, DirBlkBits: u8, XattrPrefixCount: u8, XattrPrefixStart: u32, PackedNid: u64,
    XattrFilterReserved: u8, Reserved2: b23)

  datatype SuperBlockOnDisk = SuperBlockOnDisk(
    Magic: b4, Checksum: b4, FeatureCompat: b4, BlkSzBits: u8, SbExtSlots: u8, RootNid: b2,
    Inos: b8, BuildTime: b8, BuildTimeNsec: b4, Blocks: b4, MetaBlkAddr: b4, XattrBlkAddr: b4,
    UUID: b16, VolumeName: b16, FeatureIncompat: b4, U1: b2, ExtraDevices: b2,
    DevtSlotOff: b2, DirBlkBits: u8, XattrPrefixCount: u8, XattrPrefixStart: b4, PackedNid: b8,
    XattrFilterReserved: u8, Reserved2: b23)

  // ------------------------------------------------- records and byte fields

  function Get2(s: b2): u16 { Bounds(s); Get(s) }
  function Get4(s: b4): u32 { Bounds(s); Get(s) }
  function Get8(s: b8): u64 { Bounds(s); Get(s) }

  lemma Bounds(s: seq<byte>)
    ensures |s| == 2 ==> Get(s) < 0x1_0000
    ensures |s| == 4 ==> Get(s) < 0x1_0000_0000
    ensures |s| == 8 ==> Get(s) < 0x1_0000_0000_0000_0000
  {
    PutGet(s);
    Spans();
  }

  /** `FromDisk`. */
  function FromDisk(d: SuperBlockOnDisk): SuperBlock {
    SuperBlock(
      Get4(d.Magic), Get4(d.Checksum), Get4(d.FeatureCompat), d.BlkSzBits, d.SbExtSlots, Get2(d.RootNid),
      Get8(d.Inos), Get8(d.BuildTime), Get4(d.BuildTimeNsec), Get4(d.Blocks), Get4(d.MetaBlkAddr),
      Get4(d.XattrBlkAddr), d.UUID, d.VolumeName, Get4(d.FeatureIncompat), Get2(d.U1), Get2(d.ExtraDevices),
      Get2(d.DevtSlotOff), d.DirBlkBits, d.XattrPrefixCount, Get4(d.XattrPrefixStart), Get8(d.PackedNid),
      d.XattrFilterReserved, d.Reserved2)
  }

  /** `ToDisk`. */
  function ToDisk(sb: SuperBlock): SuperBlockOnDisk {
    SuperBlockOnDisk(
      Put(4, sb.Magic), Put(4, sb.Checksum), Put(4, sb.FeatureCompat), sb.BlkSzBits, sb.SbExtSlots, Put(2, sb.RootNid),
      Put(8, sb.Inos), Put(8, sb.BuildTime), Put(4, sb.BuildTimeNsec), Put(4, sb.Blocks), Put(4, sb.MetaBlkAddr),
      Put(4, sb.XattrBlkAddr), sb.UUID, sb.VolumeName, Put(4, sb.FeatureIncompat), Put(2, sb.CompressInfo),
      Put(2, sb.ExtraDevices), Put(2, sb.DevtSlotOff), sb.DirBlkBits, sb.XattrPrefixCount,
      Put(4, sb.XattrPrefixStart), Put(8, sb.PackedNid), sb.XattrFilterReserved, sb.Reserved2)
  }

  lemma NumberRoundTrip(v: nat)
    ensures v < 0x1_0000 ==> Get(Put(2, v)) == v
    ensures v < 0x1_0000_0000 ==> Get(Put(4, v)) == v
    ensures v < 0x1_0000_0000_0000_0000 ==> Get(Put(8, v)) == v
  {
    Spans();
    if v < Span(2) { GetPut(2, v); }
    if v < Span(4) { GetPut(4, v); }
    if v < Span(8) { GetPut(8, v); }
  }

  /** Reading back what was converted gives the record. */
  lemma FromDiskOfToDisk(sb: SuperBlock)
    ensures FromDisk(ToDisk(sb)) == sb
  {
    hide Get, Put;
    NumberRoundTrip(sb.Magic); NumberRoundTrip(sb.Checksum); NumberRoundTrip(sb.FeatureCompat);
    NumberRoundTrip(sb.RootNid); NumberRoundTrip(sb.Inos); NumberRoundTrip(sb.BuildTime);
    NumberRoundTrip(sb.BuildTimeNsec); NumberRoundTrip(sb.Blocks); NumberRoundTrip(sb.MetaBlkAddr);
    NumberRoundTrip(sb.XattrBlkAddr); NumberRoundTrip(sb.FeatureIncompat); NumberRoundTrip(sb.CompressInfo);
    NumberRoundTrip(sb.ExtraDevices); NumberRoundTrip(sb.DevtSlotOff); NumberRoundTrip(sb.XattrPrefixStart);
    NumberRoundTrip(sb.PackedNid);
  }

  /** And the other way round. */
  lemma ToDiskOfFromDisk(d: SuperBlockOnDisk)
    ensures ToDisk(FromDisk(d)) == d
  {
    hide Get, Put;
    PutGet(d.Magic); PutGet(d.Checksum); PutGet(d.FeatureCompat); PutGet(d.RootNid); PutGet(d.Inos);
    PutGet(d.BuildTime); PutGet(d.BuildTimeNsec); PutGet(d.Blocks); PutGet(d.MetaBlkAddr);
    PutGet(d.XattrBlkAddr); PutGet(d.FeatureIncompat); PutGet(d.U1); PutGet(d.ExtraDevices);
    PutGet(d.DevtSlotOff); PutGet(d.XattrPrefixStart); PutGet(d.PackedNid);
  }

  // ---------------------------------------------------------------- bytes

  /** The fields in front of the checksum, the checksum, and the rest: what
      binary.Write produces for the record. */
  function Head(d: SuperBlockOnDisk): (r: seq<byte>)
    ensures |r| == 48
  {
    d.Magic + d.Checksum + d.FeatureCompat + [d.BlkSzBits, d.SbExtSlots] + d.RootNid
    + d.Inos + d.BuildTime + d.BuildTimeNsec + d.Blocks + d.MetaBlkAddr + d.XattrBlkAddr
  }

  function Middle(d: SuperBlockOnDisk): (r: seq<byte>)
    ensures |r| == 48
  {
    d.UUID + d.VolumeName + d.FeatureIncompat + d.U1 + d.ExtraDevices + d.DevtSlotOff
    + [d.DirBlkBits, d.XattrPrefixCount] + d.XattrPrefixStart
  }

  function Rest(d: SuperBlockOnDisk): (r: seq<byte>)
    ensures |r| == 32
  {
    d.PackedNid + [d.XattrFilterReserved] + d.Reserved2
  }

  function Encode(d: SuperBlockOnDisk): (r: seq<byte>)
    ensures |r| == SUPER_SIZE
  {
    Head(d) + Middle(d) + Rest(d)
  }

  /** The field of `n` bytes at position `p`. */
  function Field(s: seq<byte>, p: nat, n: nat): (r: seq<byte>)
    requires p + n <= |s|
    ensures |r| == n
  {
    s[p..p + n]
  }

  function Decode(s: seq<byte>): SuperBlockOnDisk
    requires |s| == SUPER_SIZE
  {
    SuperBlockOnDisk(
      Field(s, 0, 4), Field(s, 4, 4), Field(s, 8, 4), s[12], s[13], Field(s, 14, 2),
      Field(s, 16, 8), Field(s, 24, 8), Field(s, 32, 4), Field(s, 36, 4), Field(s, 40, 4), Field(s, 44, 4),
      Field(s, 48, 16), Field(s, 64, 16), Field(s, 80, 4), Field(s, 84, 2), Field(s, 86, 2),
      Field(s, 88, 2), s[90], s[91], Field(s, 92, 4), Field(s, 96, 8),
      s[104], Field(s, 105, 23))
  }

  lemma HeadFields(d: SuperBlockOnDisk)
    ensures var h := Head(d);
      && h[0..4] == d.Magic && h[4..8] == d.Checksum && h[8..12] == d.FeatureCompat
      && h[12] == d.BlkSzBits && h[13] == d.SbExtSlots && h[14..16] == d.RootNid
      && h[16..24] == d.Inos && h[24..32] == d.BuildTime && h[32..36] == d.BuildTimeNsec
      && h[36..40] == d.Blocks && h[40..44] == d.MetaBlkAddr && h[44..48] == d.XattrBlkAddr
  {
  }

  lemma MiddleFields(d: SuperBlockOnDisk)
    ensures var m := Middle(d);
      && m[0..16] == d.UUID && m[16..32] == d.VolumeName && m[32..36] == d.FeatureIncompat
      && m[36..38] == d.U1 && m[38..40] == d.ExtraDevices && m[40..42] == d.DevtSlotOff
      && m[42] == d.DirBlkBits && m[43] == d.XattrPrefixCount && m[44..48] == d.XattrPrefixStart
  {
  }

  lemma RestFields(d: SuperBlockOnDisk)
    ensures Rest(d)[0..8] == d.PackedNid && Rest(d)[8] == d.XattrFilterReserved && Rest(d)[9..32] == d.Reserved2
  {
  }

  lemma Within(a: seq<byte>, b: seq<byte>, c: seq<byte>, p: nat, n: nat)
    ensures p + n <= |a| ==> (a + b + c)[p..p + n] == a[p..p + n]
    ensures |a| <= p && p + n <= |a| + |b| ==> (a + b + c)[p..p + n] == b[p - |a|..p - |a| + n]
    ensures |a| + |b| <= p && p + n <= |a| + |b| + |c| ==>
      (a + b + c)[p..p + n] == c[p - |a| - |b|..p - |a| - |b| + n]
  {
  }

  /** The 128 bytes determine the record. */
  lemma DecodeEncode(d: SuperBlockOnDisk)
    ensures Decode(Encode(d)) == d
  {
    hide Head, Middle, Rest;
    var a, b, c := Head(d), Middle(d), Rest(d);
    HeadFields(d);
    MiddleFields(d);
    RestFields(d);
    Within(a, b, c, 0, 4); Within(a, b, c, 4, 4); Within(a, b, c, 8, 4); Within(a, b, c, 14, 2);
    Within(a, b, c, 16, 8); Within(a, b, c, 24, 8); Within(a, b, c, 32, 4); Within(a, b, c, 36, 4);
    Within(a, b, c, 40, 4); Within(a, b, c, 44, 4); Within(a, b, c, 48, 16); Within(a, b, c, 64, 16);
    Within(a, b, c, 80, 4); Within(a, b, c, 84, 2); Within(a, b, c, 86, 2); Within(a, b, c, 88, 2);
    Within(a, b, c, 92, 4); Within(a, b, c, 96, 8); Within(a, b, c, 105, 23);
  }

  /** Where every field of a record is in its 128 bytes. */
  lemma EncodedFields(sb: SuperBlock)
    ensures var e := Encode(ToDisk(sb));
      && Get(e[0..4]) == sb.Magic && Get(e[4..8]) == sb.Checksum && Get(e[8..12]) == sb.FeatureCompat
      && e[12] == sb.BlkSzBits && e[13] == sb.SbExtSlots && Get(e[14..16]) == sb.RootNid
      && Get(e[16..24]) == sb.Inos && Get(e[24..32]) == sb.BuildTime && Get(e[32..36]) == sb.BuildTimeNsec
      && Get(e[36..40]) == sb.Blocks && Get(e[40..44]) == sb.MetaBlkAddr && Get(e[44..48]) == sb.XattrBlkAddr
      && e[48..64] == sb.UUID && e[64..80] == sb.VolumeName && Get(e[80..84]) == sb.FeatureIncompat
      && Get(e[84..86]) == sb.CompressInfo && Get(e[86..88]) == sb.ExtraDevices && Get(e[88..90]) == sb.DevtSlotOff
      && e[90] == sb.DirBlkBits && e[91] == sb.XattrPrefixCount && Get(e[92..96]) == sb.XattrPrefixStart
      && Get(e[96..104]) == sb.PackedNid && e[104] == sb.XattrFilterReserved && e[105..128] == sb.Reserved2
  {
    hide Encode, Get, Put;
    DecodeEncode(ToDisk(sb));
    FromDiskOfToDisk(sb);
  }

  /** Different records have different images. */
  lemma ImagesDiffer(x: SuperBlock, y: SuperBlock)
    requires Encode(ToDisk(x)) == Encode(ToDisk(y))
    ensures x == y
  {
    hide Encode, Decode, ToDisk, FromDisk;
    DecodeEncode(ToDisk(x));
    DecodeEncode(ToDisk(y));
    FromDiskOfToDisk(x);
    FromDiskOfToDisk(y);
  }
}
