/** From a write behind a head to the finished image: after the flush everything is
    mapped, the superblock is written and its block gets the checksum. */
module FinishedImage {
  import opened Rounding
  import opened Objects
  import opened Layout
  import opened LayoutInv
  import opened Mapping
  import opened Flushing
  import opened Runs
  import opened LiveData
  import SB = SuperBlockImage
  import CR = Crc32c
  import LE = LittleEndian

  /** The end of a mkfs run from state `s` on. */
  function Finished(s: State, info: SB.Info): seq<byte>
    requires ValidBits(s.bits)
  {
    var f := FlushFrom(s, 0, null).state;
    var m := MapUpto(f, |f.blocks|);
    SB.Enabled(Pwrite(m.dev, 0, SB.SuperImage(info, m.tail % TWO_32)), s.bits)
  }

  /** The checksum step changes the checksum and the feature word only. */
  lemma EnabledSpares(dev: seq<byte>, bits: nat, x: nat)
    requires ValidBits(bits) && x < |dev| && !(1028 <= x < 1036)
    ensures x < |SB.Enabled(dev, bits)| && SB.Enabled(dev, bits)[x] == dev[x]
  {
    hide CR.Crc, LE.Get, LE.Put;
    SB.ReadLength(bits);
    SB.BufferLength(dev, bits);
    BlockSizes(bits);
    assert x < Pow2(bits) ==> SB.ReadBuffer(dev, bits)[x] == dev[x];
  }

  /** So a reader finds the same values before and after it. */
  lemma EnabledDescribes(dev: seq<byte>, bits: nat, info: SB.Info, blocks: nat, dirBlkBits: nat)
    requires ValidBits(bits) && |dev| >= 1152 && SB.Describes(dev[..1152], info, blocks, dirBlkBits)
    ensures |SB.Enabled(dev, bits)| >= 1152 && SB.Describes(SB.Enabled(dev, bits)[..1152], info, blocks, dirBlkBits)
  {
    hide SB.Describes, SB.Enabled;
    EnabledSpares(dev, bits, 1151);
    forall x | 0 <= x < 1152 && !(1028 <= x < 1036) ensures SB.Enabled(dev, bits)[..1152][x] == dev[..1152][x] {
      EnabledSpares(dev, bits, x);
    }
    SB.DescribesStays(dev[..1152], SB.Enabled(dev, bits)[..1152], info, blocks, dirBlkBits);
  }

  /** The superblock written at byte zero of any device, after the checksum step: a
      reader finds the values and the number of blocks, and the image verifies exactly
      when a block has at least 2048 bytes. */
  lemma SuperblockReadable(dev: seq<byte>, bits: nat, info: SB.Info, blocks: nat)
    requires ValidBits(bits) && blocks < TWO_32
    ensures var image := SB.Enabled(Pwrite(dev, 0, SB.SuperImage(info, blocks)), bits);
      && |image| >= 1152 && SB.Describes(image[..1152], info, blocks, 0)
      && LE.Get(image[1060..1064]) == blocks
      && (SB.Verifies(image, bits) <==> Pow2(bits) >= 2048)
  {
    hide SB.Enabled, SB.SuperImage, SB.Verifies, SB.Unsummed, SB.Describes, LE.Get;
    var d := Pwrite(dev, 0, SB.SuperImage(info, blocks));
    SB.WrittenIsUnsummed(dev, info, blocks, bits);
    SB.ChecksumVerifiesIff(d, bits);
    SB.WrittenDescribes(dev, 0, info, blocks);
    EnabledDescribes(d, bits, info, blocks, 0);
    SB.BlocksAt(SB.Enabled(d, bits), info, blocks, 0);
  }

  /** So the finished image has a superblock with the values of `info`, and as its number
      of blocks where everything that was left after the flush ends. */
  lemma FinishedReadable(s: State, info: SB.Info)
    requires Inv(s) && Fits(s)
    ensures ValidBits(s.bits)
    ensures var f, image := FlushFrom(s, 0, null).state, Finished(s, info);
      && f.cut <= |f.blocks| && |image| >= 1152
      && SB.Describes(image[..1152], info, AddrOf(f, |f.blocks|), 0)
      && LE.Get(image[1060..1064]) == AddrOf(f, |f.blocks|)
      && (SB.Verifies(image, s.bits) <==> Pow2(s.bits) >= 2048)
  {
    hide Inv, Fits, FlushFrom, MapUpto, AddrOf, SB.SuperImage, SB.Enabled, SB.Describes, SB.Verifies, LE.Get;
    InvCut(s);
    FlushInv(s, 0, null);
    FlushBits(s, 0, null);
    var f := FlushFrom(s, 0, null).state;
    MappedEnd(f);
    SuperblockReadable(MapUpto(f, |f.blocks|).dev, s.bits, info, MapUpto(f, |f.blocks|).tail);
  }

  lemma MappedEnd(f: State)
    requires Inv(f) && Fits(f)
    ensures f.cut <= |f.blocks| && MapUpto(f, |f.blocks|).tail == AddrOf(f, |f.blocks|) < TWO_32
  {
    hide Inv, Fits, MapUpto, AddrOf;
    InvCut(f);
    MapUptoFacts(f, |f.blocks|);
    MapUptoInv(f, |f.blocks|);
    TailBounded(MapUpto(f, |f.blocks|));
  }

  /** Other heads than the superblock lie behind it. */
  lemma BehindSuperblock(s: State, sup: BufferHead, i: nat, k: nat, x: nat)
    requires Inv(s) && Fits(s) && Reserved(s, sup) && Covers(s, i, k, x) && (i != 0 || k != 0)
    ensures x >= SUPER_END
  {
    SuperblockStaysPinned(s, [], sup);
  }

  /** No byte of any other mapped head is changed by flushing the image, mapping the
      rest, writing the superblock and enabling its checksum. */
  lemma FinishingKeeps(s: State, sup: BufferHead, info: SB.Info, i: nat, k: nat, x: nat)
    requires Inv(s) && Fits(s) && Reserved(s, sup)
    requires Covers(s, i, k, x) && (i != 0 || k != 0) && x < |s.dev|
    ensures ValidBits(s.bits) && x < |Finished(s, info)| && Finished(s, info)[x] == s.dev[x]
  {
    hide Inv, Fits, FlushFrom, MapUpto, Covers, Reserved, SB.SuperImage, SB.Enabled;
    InvCut(s);
    BehindSuperblock(s, sup, i, k, x);
    FlushKeepsMapped(s, null, i, k, x);
    FlushInv(s, 0, null);
    var f := FlushFrom(s, 0, null).state;
    MapUptoDev(f, |f.blocks|);
    var m := MapUpto(f, |f.blocks|);
    EnabledSpares(Pwrite(m.dev, 0, SB.SuperImage(info, m.tail % TWO_32)), s.bits, x);
  }

  /** End to end: what a caller wrote behind a head is in the finished image at the
      same place, whatever happened to the image in between, as long as the head
      was still there when the final flush began and was not written to again. */
  lemma WrittenIsInImage(s: State, sup: BufferHead, info: SB.Info, i: nat, k: nat, skip: nat, data: seq<byte>,
                         steps: seq<Step>, j: nat, l: nat)
    requires Inv(s) && Fits(s) && Reserved(s, sup) && (i != 0 || k != 0)
    requires StepOk(s, WriteTo(i, k, skip, data)) && RunOk(Written(s, i, k, skip, data), steps)
    requires forall st :: st in steps ==> KeepsFirst(st)
    requires IsHead(Run(Written(s, i, k, skip, data), steps), j, l)
    requires Run(Written(s, i, k, skip, data), steps).blocks[j].heads[l].ref == s.blocks[i].heads[k].ref
    requires forall st :: st in steps ==> !Issues(st, s.blocks[i].heads[k].ref)
    requires NeverWritten(Written(s, i, k, skip, data), steps, s.blocks[i].heads[k].ref)
    ensures ValidBits(s.bits)
    ensures var u := Run(Written(s, i, k, skip, data), steps);
      var pos := Tell(s, i, k, false) + skip;
      && u.bits == s.bits
      && (data != [] ==> pos + |data| <= |Finished(u, info)| && Finished(u, info)[pos..pos + |data|] == data)
  {
    hide Inv, Fits, RunOk, Run, NeverWritten, Issues, Reserved, Finished, KeepsFirst, Covers, Written;
    var t := Written(s, i, k, skip, data);
    var u := Run(t, steps);
    InvCut(s);
    StepInv(s, WriteTo(i, k, skip, data));
    StepBits(s, WriteTo(i, k, skip, data));
    RunBits(t, steps);
    WrittenReserved(s, i, k, skip, data, sup);
    SameBlocks(s, i, k, skip, data);
    var pos := Tell(s, i, k, false) + skip;
    var image := Finished(u, info);
    if data != [] {
      WrittenCovers(s, i, k, skip, data, |data| - 1);
      LiveByteInImage(t, sup, info, i, k, steps, j, l, pos + |data| - 1);
      forall x | pos <= x < pos + |data| ensures image[x] == data[x - pos] {
        WrittenCovers(s, i, k, skip, data, x - pos);
        LiveByteInImage(t, sup, info, i, k, steps, j, l, x);
      }
    }
  }

  lemma SameBlocks(s: State, i: nat, k: nat, skip: nat, data: seq<byte>)
    requires IsHead(s, i, k)
    ensures Written(s, i, k, skip, data).blocks == s.blocks
  {
  }

  lemma WrittenCovers(s: State, i: nat, k: nat, skip: nat, data: seq<byte>, m: nat)
    requires StepOk(s, WriteTo(i, k, skip, data)) && m < |data|
    ensures var t, x := Written(s, i, k, skip, data), Tell(s, i, k, false) + skip + m;
      x < |t.dev| && t.dev[x] == data[m] && Covers(t, i, k, x)
  {
  }

  /** A byte of a head that is there until the image is finished, and not written. */
  lemma LiveByteInImage(t: State, sup: BufferHead, info: SB.Info, i: nat, k: nat, steps: seq<Step>, j: nat, l: nat, x: nat)
    requires Inv(t) && Fits(t) && Reserved(t, sup) && (i != 0 || k != 0) && RunOk(t, steps)
    requires Covers(t, i, k, x) && x < |t.dev|
    requires forall st :: st in steps ==> KeepsFirst(st)
    requires IsHead(Run(t, steps), j, l) && Run(t, steps).blocks[j].heads[l].ref == t.blocks[i].heads[k].ref
    requires forall st :: st in steps ==> !Issues(st, t.blocks[i].heads[k].ref)
    requires NeverWritten(t, steps, t.blocks[i].heads[k].ref)
    ensures ValidBits(Run(t, steps).bits)
    ensures x < |Finished(Run(t, steps), info)| && Finished(Run(t, steps), info)[x] == t.dev[x]
  {
    hide Inv, Fits, RunOk, Run, NeverWritten, Issues, Reserved, Finished, KeepsFirst, Covers;
    var u := Run(t, steps);
    RunInv(t, steps);
    SuperblockStaysPinned(t, steps, sup);
    CoversHead(t, i, k, x);
    OtherHead(t, sup, i, k);
    OtherHead(u, sup, j, l);
    LiveBytesStay(t, steps, i, k, j, l, x);
    FinishingKeeps(u, sup, info, j, l, x);
  }

  /** The superblock head is the first one and no other. */
  lemma OtherHead(s: State, sup: BufferHead, i: nat, k: nat)
    requires Inv(s) && Reserved(s, sup) && IsHead(s, i, k)
    ensures s.blocks[i].heads[k].ref == sup <==> i == 0 && k == 0
  {
    assert IsHead(s, 0, 0);
  }
}
