/** The buffer manager of pkg/types as an object that its operations update in
    place. Each method is proved to do to the `Model` what the function of the
    same operation does; `null` as `LastMappedBlock` stands for the list head. */
module Buffers {
  import opened Rounding
  import opened Objects
  import opened Layout
  import opened LayoutInv
  import opened Mapping
  import opened Flushing
  import opened Placement
  import opened Runs
  import opened Reserving
  import FI = FinishedImage
  import LE = LittleEndian
  import SB = SuperBlockImage

  function IndexOf(bs: seq<BufferBlock>, bb: BufferBlock): (i: nat)
    ensures i <= |bs|
    ensures i < |bs| ==> bs[i] == bb
    ensures forall j :: 0 <= j < i ==> bs[j] != bb
    ensures bb in bs <==> i < |bs|
  {
    if bs == [] || bs[0] == bb then 0 else 1 + IndexOf(bs[1..], bb)
  }

  ghost function HeadView(bh: BufferHead): HeadV
    reads bh
  {
    HeadV(bh, bh.Off, bh.Op)
  }

  ghost function View(bb: BufferBlock): BlockV
    reads bb, bb.Heads
  {
    BlockV(bb, bb.BlkAddr, bb.Type, bb.Off,
           seq(|bb.Heads|, k requires 0 <= k < |bb.Heads| reads bb, bb.Heads => HeadView(bb.Heads[k])))
  }

  ghost function IncomingOf(bh: BufferHead?): Incoming
    reads bh
  {
    if bh == null then NoHead else Fresh(bh, bh.Op)
  }

  /** What the flush operation of the head at position `k` does, and where the
      next head is then. */
  method FlushHead(bb: BufferBlock, k: nat) returns (ret: int, skip: bool, next: nat)
    requires k < |bb.Heads|
    modifies bb`Heads
    ensures |bb.Heads| <= |old(bb.Heads)|
    ensures var v := old(View(bb));
      && (ret == if v.heads[k].op == Busy then -EBUSY else 0)
      && (skip <==> v.heads[k].op == SkipWrite)
      && next == (if v.heads[k].op == Busy || v.heads[k].op == DropDirectly then k else k + 1)
      && View(bb) == (if v.heads[k].op == DropDirectly then v.(heads := v.heads[..k] + v.heads[k + 1..]) else v)
  {
    hide View, HeadView;
    ViewHeads(bb, k);
    var bh := bb.Heads[k];
    ret, skip, next := 0, false, k;
    if bh.Op == SkipWrite {
      skip, next := true, k + 1;
    } else if bh.Op == Busy {
      ret := -EBUSY;
    } else if bh.Op == DropDirectly {
      Unhook(bb, k);
    } else {
      next := k + 1;
    }
  }

  /** The inner loop of `ErofsBflush`: runs the flush operation of each head and
      stops at one that fails. */
  method RunFlushOps(bb: BufferBlock) returns (ret: int, skip: bool)
    modifies bb`Heads
    ensures var hs, n := old(View(bb)).heads, FirstBusy(old(View(bb)).heads);
      && View(bb) == old(View(bb)).(heads := Kept(hs[..n]) + hs[n..])
      && (ret == if n < |hs| then -EBUSY else 0)
      && (ret == 0 ==> (skip <==> Skips(hs)))
  {
    hide Kept, FirstBusy, View, HeadView, Skips, InLoop;
    ghost var v := View(bb);
    ghost var hs, m := v.heads, 0;
    skip, ret := false, 0;
    var k: nat := 0;
    NothingYet(hs);
    LoopStarts(hs);
    ViewLength(bb);
    while k < |bb.Heads|
      invariant m <= |hs| && InLoop(hs, m, k, View(bb).heads) && (skip <==> Skips(hs[..m]))
      invariant View(bb) == v.(heads := View(bb).heads) && |View(bb).heads| == |bb.Heads|
      decreases |hs| - m
    {
      FlushRound(hs, m, k, View(bb).heads);
      var skipped;
      ret, skipped, k := FlushHead(bb, k);
      if ret != 0 {
        return;
      }
      skip := skip || skipped;
      ViewLength(bb);
      m := m + 1;
    }
    LoopEnds(hs, m, k, View(bb).heads);
  }

  /** After `m` of the heads `hs` the list is `list`, and head `m` is at `k`. */
  ghost predicate InLoop(hs: seq<HeadV>, m: nat, k: nat, list: seq<HeadV>) {
    m <= |hs| && m <= FirstBusy(hs) && list == Kept(hs[..m]) + hs[m..] && k == |Kept(hs[..m])|
  }

  lemma LoopStarts(hs: seq<HeadV>)
    ensures InLoop(hs, 0, 0, hs)
  {
  }

  lemma FlushRound(hs: seq<HeadV>, m: nat, k: nat, list: seq<HeadV>)
    requires InLoop(hs, m, k, list) && k < |list|
    ensures m < |hs| && list[k] == hs[m]
    ensures list[k].op == Busy ==> FirstBusy(hs) == m && list == Kept(hs[..m]) + hs[m..]
    ensures list[k].op == DropDirectly ==> InLoop(hs, m + 1, k, list[..k] + list[k + 1..])
    ensures list[k].op != Busy && list[k].op != DropDirectly ==> InLoop(hs, m + 1, k + 1, list)
    ensures Skips(hs[..m + 1]) <==> Skips(hs[..m]) || list[k].op == SkipWrite
  {
    KeptStep(hs, m, list);
    BeyondBusy(hs, m);
    SkipsSnoc(hs, m);
  }

  lemma LoopEnds(hs: seq<HeadV>, m: nat, k: nat, list: seq<HeadV>)
    requires InLoop(hs, m, k, list) && k >= |list|
    ensures m == |hs| == FirstBusy(hs) && hs[..m] == hs && list == Kept(hs[..m]) + hs[m..]
  {
  }

  /** No head joins the list while it is flushed. */
  method FlushOps(bb: BufferBlock) returns (ret: int, skip: bool)
    modifies bb`Heads
    ensures forall h :: h in bb.Heads ==> h in old(bb.Heads)
    ensures var hs, n := old(View(bb)).heads, FirstBusy(old(View(bb)).heads);
      && View(bb) == old(View(bb)).(heads := Kept(hs[..n]) + hs[n..])
      && (ret == if n < |hs| then -EBUSY else 0)
      && (ret == 0 ==> (skip <==> Skips(hs)))
  {
    hide Kept, FirstBusy, Skips;
    ghost var hs := View(bb).heads;
    ghost var f := VisitThins(hs);
    ret, skip := RunFlushOps(bb);
    forall h | h in bb.Heads ensures h in old(bb.Heads) {
      var k :| 0 <= k < |bb.Heads| && bb.Heads[k] == h;
      assert View(bb).heads[k].ref == hs[f[k]].ref == old(bb.Heads)[f[k]];
    }
  }

  lemma EmptyView(bb: BufferBlock)
    requires bb.Heads == []
    ensures View(bb) == BlockV(bb, bb.BlkAddr, bb.Type, bb.Off, [])
  {
  }

  lemma LastHead(bb: BufferBlock)
    requires View(bb).heads != []
    ensures bb.Heads != [] && bb.Heads[|bb.Heads| - 1] == View(bb).heads[|View(bb).heads| - 1].ref
  {
  }

  lemma LastAttached(s: State, i: nat, h: Incoming, incr: nat, align: nat, extra: nat)
    requires i < |s.blocks| && h.Fresh?
    ensures var t := Attached(s, i, h, incr, align, extra);
      && i < |t.blocks| && t.blocks[i].heads != []
      && t.blocks[i].heads[|t.blocks[i].heads| - 1].ref == h.ref
  {
    UpdateMappedRest(Placed(s, i, h, incr, align, extra), i);
  }

  lemma ViewLength(bb: BufferBlock)
    ensures |View(bb).heads| == |bb.Heads|
  {
  }

  lemma ViewHeads(bb: BufferBlock, k: nat)
    requires k < |bb.Heads|
    ensures |View(bb).heads| == |bb.Heads| && View(bb).heads[k] == HeadV(bb.Heads[k], bb.Heads[k].Off, bb.Heads[k].Op)
  {
  }

  /** `BhFlushGenericEnd`: takes the head at position `k` out of the list. */
  method Unhook(bb: BufferBlock, k: nat)
    requires k < |bb.Heads|
    modifies bb`Heads
    ensures bb.Heads == old(bb.Heads)[..k] + old(bb.Heads)[k + 1..]
    ensures View(bb) == WithoutHead(old(View(bb)), k)
  {
    ghost var v := View(bb);
    bb.Heads := bb.Heads[..k] + bb.Heads[k + 1..];
    assert View(bb).heads == WithoutHead(v, k).heads;
  }

  lemma NothingYet(hs: seq<HeadV>)
    ensures Kept(hs[..0]) == [] && !Skips(hs[..0])
  {
  }

  lemma SkipsSnoc(hs: seq<HeadV>, m: nat)
    requires m < |hs|
    ensures Skips(hs[..m + 1]) <==> Skips(hs[..m]) || hs[m].op == SkipWrite
  {
    assert hs[..m + 1][m] == hs[m];
    assert forall l :: 0 <= l < m ==> hs[..m + 1][l] == hs[..m][l];
  }

  datatype FindResult = NoSpace | Use(block: BufferBlock) | NeedNew

  class BufferManager {
    const Bits: nat
    var Blocks: seq<BufferBlock>
    var MappedBuckets: map<Key, seq<BufferBlock>>
    var TailBlkAddr: nat
    var MetaBlkCnt: nat
    var LastMappedBlock: BufferBlock?
    var Dev: seq<byte>

    ghost function AllHeads(): set<BufferHead>
      reads this, Blocks
    {
      set b, h | b in Blocks && h in b.Heads :: h
    }

    ghost function Cut(): nat
      reads this
    {
      if LastMappedBlock == null then 0 else IndexOf(Blocks, LastMappedBlock) + 1
    }

    ghost function Views(): (r: seq<BlockV>)
      reads this, Blocks, AllHeads()
      ensures |r| == |Blocks|
    {
      seq(|Blocks|, i requires 0 <= i < |Blocks| reads this, Blocks, AllHeads() =>
        assert forall h :: h in Blocks[i].Heads ==> h in AllHeads();
        View(Blocks[i]))
    }

    ghost function Model(): State
      reads this, Blocks, AllHeads()
    {
      State(Bits, Views(), Cut(), TailBlkAddr, MetaBlkCnt, MappedBuckets, Dev)
    }

    /** Every head points back to its block. */
    ghost predicate Linked()
      reads this, Blocks, AllHeads()
    {
      forall b, h :: b in Blocks && h in b.Heads ==> h.Block == b
    }

    /** Back pointers are right, and the manager satisfies its invariant. */
    ghost predicate Valid()
      reads this, Blocks, AllHeads()
    {
      && (LastMappedBlock != null ==> LastMappedBlock in Blocks)
      && Linked()
      && Inv(Model()) && Fits(Model())
    }

    /** The block at the position of `bb` in the model is `bb` as it is now. */
    lemma BlockAt(bb: BufferBlock)
      requires bb in Blocks
      ensures var i, s := IndexOf(Blocks, bb), Model();
        && i < |s.blocks| == |Blocks| && s.blocks[i] == View(bb)
        && s.blocks[i].ref == bb && s.blocks[i].addr == bb.BlkAddr && s.blocks[i].typ == bb.Type
        && s.blocks[i].off == bb.Off && |s.blocks[i].heads| == |bb.Heads|
    {
    }

    lemma ValidFacts()
      requires Valid()
      ensures ValidBits(Bits) && Model().cut <= |Blocks| == |Model().blocks|
      ensures forall i, j :: 0 <= i < j < |Blocks| ==> Blocks[i] != Blocks[j]
    {
      forall i, j | 0 <= i < j < |Blocks| ensures Blocks[i] != Blocks[j] {
        assert Model().blocks[i].ref != Model().blocks[j].ref;
      }
    }

    /** `ErofsBufferInit`. */
    constructor (bits: nat, startblk: nat, dev: seq<byte>)
      requires ValidBits(bits) && startblk < NULL_ADDR
      ensures Valid() && Blocks == []
      ensures Model() == Init(bits, startblk, dev)
      ensures TailBlkAddr == startblk && MetaBlkCnt == 0 && LastMappedBlock == null && Dev == dev
      ensures forall t: int, k: nat ::
        ((t, k) in MappedBuckets <==> (t == DATA || t == META) && k < 4096)
        && ((t, k) in MappedBuckets ==> MappedBuckets[(t, k)] == [])
    {
      Bits := bits;
      Blocks := [];
      MappedBuckets := map t, k: nat | t in {DATA, META} && 0 <= k < 4096 :: (t, k) := [];
      TailBlkAddr := startblk;
      MetaBlkCnt := 0;
      LastMappedBlock := null;
      Dev := dev;
      new;
      InitInv(bits, startblk, dev);
    }

    /** `BupdateMapped`. */
    method BupdateMapped(bb: BufferBlock)
      requires bb in Blocks && ValidBits(Bits) && (bb.Type == DATA || bb.Type == META)
      requires forall k :: IsKey(k) ==> k in MappedBuckets
      requires forall i, j :: 0 <= i < j < |Blocks| ==> Blocks[i] != Blocks[j]
      modifies this`MappedBuckets
      ensures Model() == UpdateMapped(old(Model()), IndexOf(Blocks, bb))
      ensures old(Linked()) ==> Linked()
    {
      ghost var s := Model();
      ghost var i := IndexOf(Blocks, bb);
      assert s.blocks[i] == View(bb);
      KeyIsKey(Bits, View(bb));
      if bb.BlkAddr == NULL_ADDR {
        return;
      }
      var k := (bb.Type, Mask(bb.Off, Bits));
      MappedBuckets := UnlinkAll(MappedBuckets, bb);
      MappedBuckets := MappedBuckets[k := MappedBuckets[k] + [bb]];
      assert Model().blocks == s.blocks;
    }

    /** The first half of `BattachInternal`: the boundary test, and whether the
        tail has to move with the block. */
    method AttachTest(bb: BufferBlock, incr: nat, alignsize: nat, extrasize: nat)
      returns (ok: bool, tailupdate: bool)
      requires Valid() && bb in Blocks
      requires CanRequest(Model(), IndexOf(Blocks, bb), NoHead, incr, alignsize, extrasize)
      ensures Valid() && Model() == old(Model())
      ensures var s, i := Model(), IndexOf(Blocks, bb);
        && (ok <==> TryAttach(s, i, incr, alignsize, extrasize) >= 0)
        && (!ok ==> TryAttach(s, i, incr, alignsize, extrasize) == -EINVAL)
        && (ok ==> (tailupdate <==> Oob(Bits, bb.Off, incr, alignsize, extrasize) >= 0 && TouchesTail(s, i)))
    {
      hide Inv, Fits, RoundUp, BlkRoundUp, LastFill, Views, View, Linked, IndexOf;
      ghost var s := Model();
      ghost var i := IndexOf(Blocks, bb);
      BlockAt(bb);
      ValidFacts();
      ReturnIsPositive(s, i, incr, alignsize, extrasize);
      tailupdate := false;
      var oob := OobTest(Bits, bb.Off, incr, alignsize, extrasize);
      if oob >= 0 {
        if oob > 0 {
          // Growth past the last block would run into a mapped successor.
          var n := IndexOf(Blocks, bb) + 1;
          if n < |Blocks| {
            IndexUnique(Blocks, n);
            BlockAt(Blocks[n]);
          }
          if n < |Blocks| && Blocks[n].BlkAddr != NULL_ADDR {
            return false, false;
          }
        }
        var blkaddr := bb.BlkAddr;
        if blkaddr != NULL_ADDR {
          MappedInPrefix(s, i);
          AddressesFit(s, i);
          tailupdate := TailBlkAddr == U32(blkaddr + U32(BlkRoundUp(Bits, bb.Off)));
          if oob > 0 && !tailupdate {
            return false, false;
          }
        }
      }
      ok := true;
    }

    /** Extends block `bb` by a request and links its head, if it has one. */
    method Grow(bb: BufferBlock, bh: BufferHead?, incr: nat, alignsize: nat)
      requires bb in Blocks && Linked()
      requires forall i, j :: 0 <= i < j < |Blocks| ==> Blocks[i] != Blocks[j]
      requires bh != null ==> forall b :: b in Blocks ==> bh !in b.Heads
      modifies bb, bh
      ensures Linked() && bb.BlkAddr == old(bb.BlkAddr) && bb.Type == old(bb.Type)
      ensures bb.Off == RoundUp(old(bb.Off), alignsize) + incr
      ensures var i := IndexOf(Blocks, bb);
        Model() == old(Model()).(blocks :=
          old(Model()).blocks[i := Grown(old(View(bb)), old(IncomingOf(bh)), incr, alignsize)])
      ensures bh != null ==> bh.Op == old(bh.Op)
    {
      hide RoundUp;
      ghost var s := Model();
      ghost var i := IndexOf(Blocks, bb);
      ghost var g := Grown(View(bb), IncomingOf(bh), incr, alignsize);
      var alignedoffset := RoundUp(bb.Off, alignsize);
      if bh != null {
        bh.Off := alignedoffset;
        bh.Block := bb;
        bb.Heads := bb.Heads + [bh];
      }
      bb.Off := alignedoffset + incr;
      assert View(bb) == g;
      assert Model().blocks == s.blocks[i := g];
    }

    /** Updates the tail address when the block reaches it. */
    method MoveTail(bb: BufferBlock, tailupdate: bool,
                    ghost s: State, ghost i: nat, ghost h: Incoming, ghost incr: nat, ghost align: nat, ghost extra: nat)
      requires bb in Blocks && i < |s.blocks| && Fits(Attached(s, i, h, incr, align, extra))
      requires Model() == s.(blocks := s.blocks[i := Grown(s.blocks[i], h, incr, align)])
      requires bb.Off == RoundUp(s.blocks[i].off, align) + incr && bb.BlkAddr == s.blocks[i].addr
      requires tailupdate <==> Oob(s.bits, s.blocks[i].off, incr, align, extra) >= 0 && TouchesTail(s, i)
      modifies this`TailBlkAddr
      ensures Model() == Placed(s, i, h, incr, align, extra)
      ensures old(Linked()) ==> Linked()
    {
      hide RoundUp, Oob, BlkRoundUp, TouchesTail, Fits;
      assert Bits == s.bits;
      ghost var m := Model();
      if tailupdate {
        PlacedFits(s, i, h, incr, align, extra);
        TailBlkAddr := U32(bb.BlkAddr + U32(BlkRoundUp(Bits, bb.Off)));
      }
      assert Model().blocks == m.blocks;
    }

    /** The second half of `BattachInternal`, which a dry run leaves out. */
    method AttachCommit(bb: BufferBlock, bh: BufferHead?, incr: nat, alignsize: nat, ghost extrasize: nat, tailupdate: bool)
      requires Valid() && bb in Blocks
      requires CanRequest(Model(), IndexOf(Blocks, bb), IncomingOf(bh), incr, alignsize, extrasize)
      requires TryAttach(Model(), IndexOf(Blocks, bb), incr, alignsize, extrasize) >= 0
      requires Fits(Attached(Model(), IndexOf(Blocks, bb), IncomingOf(bh), incr, alignsize, extrasize))
      requires tailupdate <==>
        Oob(Bits, bb.Off, incr, alignsize, extrasize) >= 0 && TouchesTail(Model(), IndexOf(Blocks, bb))
      modifies this, bb, bh
      ensures Valid() && Blocks == old(Blocks)
      ensures Model() == Attached(old(Model()), IndexOf(Blocks, bb), old(IncomingOf(bh)), incr, alignsize, extrasize)
      ensures bh != null ==> bh.Op == old(bh.Op)
    {
      hide Inv, Fits, RoundUp, BlkRoundUp, LastFill, Oob, Views, View, Linked, IndexOf;
      ghost var s := Model();
      ghost var i := IndexOf(Blocks, bb);
      ghost var h := IncomingOf(bh);
      BlockAt(bb);
      ValidFacts();
      AttachInv(s, i, h, incr, alignsize, extrasize);
      MappedInPrefix(s, i);
      FreshIsUnlinked(bh);
      Grow(bb, bh, incr, alignsize);
      MoveTail(bb, tailupdate, s, i, h, incr, alignsize, extrasize);
      BupdateMapped(bb);
    }

    lemma FreshIsUnlinked(bh: BufferHead?)
      requires Valid() && FreshHead(Model(), IncomingOf(bh))
      ensures bh != null ==> forall b :: b in Blocks ==> bh !in b.Heads
    {
      hide Inv, Fits;
      if bh != null {
        forall b, h | b in Blocks && h in b.Heads ensures h != bh {
          var i := IndexOf(Blocks, b);
          assert Model().blocks[i] == View(b);
          var k: nat :| k < |b.Heads| && b.Heads[k] == h;
          assert IsHead(Model(), i, k);
        }
      }
    }

    /** `BattachInternal`. */
    method BattachInternal(bb: BufferBlock, bh: BufferHead?, incr: nat, alignsize: nat, extrasize: nat, dryrun: bool)
      returns (ret: int)
      requires Valid() && bb in Blocks
      requires CanRequest(Model(), IndexOf(Blocks, bb), IncomingOf(bh), incr, alignsize, extrasize)
      requires !dryrun && TryAttach(Model(), IndexOf(Blocks, bb), incr, alignsize, extrasize) >= 0 ==>
        Fits(Attached(Model(), IndexOf(Blocks, bb), IncomingOf(bh), incr, alignsize, extrasize))
      modifies if dryrun then {} else {this, bb, bh}
      ensures Valid() && Blocks == old(Blocks)
      ensures ret == TryAttach(old(Model()), IndexOf(Blocks, bb), incr, alignsize, extrasize)
      ensures dryrun || ret < 0 ==> Model() == old(Model())
      ensures !dryrun && ret >= 0 ==>
        Model() == Attached(old(Model()), IndexOf(Blocks, bb), old(IncomingOf(bh)), incr, alignsize, extrasize)
      ensures !dryrun && bh != null ==> bh.Op == old(bh.Op)
    {
      hide Inv, Fits, RoundUp, BlkRoundUp, Oob, Views, View, Linked, IndexOf;
      BlockAt(bb);
      var alignedoffset := RoundUp(bb.Off, alignsize);
      var ok, tailupdate := AttachTest(bb, incr, alignsize, extrasize);
      if !ok {
        return -EINVAL;
      }
      if !dryrun {
        AttachCommit(bb, bh, incr, alignsize, extrasize, tailupdate);
      }
      ret := Mask(U64(alignedoffset + incr - 1), Bits) + 1;
    }

    /** Gives block `bb` the tail address and makes it the last mapped one. */
    method SetAddress(bb: BufferBlock)
      requires bb in Blocks && Linked()
      requires forall i, j :: 0 <= i < j < |Blocks| ==> Blocks[i] != Blocks[j]
      modifies this`LastMappedBlock, bb`BlkAddr
      ensures Linked() && LastMappedBlock == bb && bb.BlkAddr == TailBlkAddr
      ensures Model() == Addressed(old(Model()), IndexOf(Blocks, bb))
    {
      ghost var s := Model();
      ghost var i := IndexOf(Blocks, bb);
      ghost var g := View(bb).(addr := TailBlkAddr);
      bb.BlkAddr := TailBlkAddr;
      LastMappedBlock := bb;
      assert View(bb) == g;
      assert Model().blocks == s.blocks[i := g];
    }

    method SetTail(end: nat)
      requires Linked()
      modifies this`TailBlkAddr
      ensures Linked() && TailBlkAddr == end && Model() == old(Model()).(tail := end)
    {
      ghost var s := Model();
      TailBlkAddr := end;
      assert Model().blocks == s.blocks;
    }

    /** `MapBhInternal`; returns the block address behind the extent. */
    method MapBhInternal(bb: BufferBlock) returns (blkaddr: nat)
      requires Valid() && bb in Blocks && IndexOf(Blocks, bb) <= Cut()
      modifies this, bb
      ensures Valid() && Blocks == old(Blocks)
      ensures Model() == MapBlock(old(Model()), IndexOf(Blocks, bb))
      ensures blkaddr == EndAddr(Bits, View(bb)) && bb.BlkAddr != NULL_ADDR
      ensures bb.Heads == old(bb.Heads) && bb.Off == old(bb.Off) && bb.Type == old(bb.Type)
    {
      hide Inv, Fits, BlkRoundUp, RoundUp, MapBlock, UpdateMapped, Addressed, Views, View, Linked, IndexOf, Cut;
      ghost var s := Model();
      ghost var i := IndexOf(Blocks, bb);
      ValidFacts();
      BlockAt(bb);
      MapEither(s, i);
      MappedInPrefix(s, i);
      MapAddress(s, i);
      MapBlockIs(s, i);
      if bb.BlkAddr == NULL_ADDR {
        SetAddress(bb);
        BupdateMapped(bb);
      }
      BlockAt(bb);
      blkaddr := bb.BlkAddr + BlkRoundUp(Bits, bb.Off);
      if blkaddr > TailBlkAddr {
        SetTail(U32(blkaddr));
      }
    }

    /** `MapBh`: the address of a mapped block, or else the tail after mapping
        everything up to the block, or up to the end for a nil pointer. */
    method MapBh(bb: BufferBlock?) returns (addr: nat)
      requires Valid()
      modifies this, Blocks
      ensures Valid() && Blocks == old(Blocks)
      ensures bb != null && old(bb.BlkAddr) != NULL_ADDR ==> addr == old(bb.BlkAddr) && Model() == old(Model())
      ensures bb == null || old(bb.BlkAddr) == NULL_ADDR ==>
        && Model() == MapUpto(old(Model()), if bb == null then |Blocks| else IndexOf(Blocks, bb))
        && addr == TailBlkAddr
      ensures forall b :: b in Blocks ==> b.Heads == old(b.Heads)
    {
      hide Inv, Fits, MapUpto, Views, View, Linked, IndexOf, Cut;
      if bb != null && bb.BlkAddr != NULL_ADDR {
        return bb.BlkAddr;
      }
      ghost var s := Model();
      ghost var j := if bb == null then |Blocks| else IndexOf(Blocks, bb);
      CutIsLast();
      var n := if LastMappedBlock == null then 0 else IndexOf(Blocks, LastMappedBlock) + 1;
      ValidFacts();
      Unmapped(bb);
      while n < |Blocks|
        invariant Valid() && Blocks == old(Blocks) && n == Model().cut <= |Blocks| && n <= j
        invariant MapUpto(Model(), j) == MapUpto(s, j)
        invariant forall b :: b in Blocks ==> b.Heads == old(b.Heads)
        decreases |Blocks| - n
      {
        var t := Blocks[n];
        MapNext(n, j);
        n := n + 1;
        if t == bb {
          ValidFacts();
          IndexUnique(Blocks, n - 1);
          break;
        }
        ValidFacts();
        if bb != null { NotYet(bb, n); }
      }
      MapDone(Model(), j);
      addr := TailBlkAddr;
    }

    lemma Unmapped(bb: BufferBlock?)
      requires Valid()
      ensures bb != null && bb.BlkAddr == NULL_ADDR && bb in Blocks ==> Model().cut <= IndexOf(Blocks, bb)
    {
      if bb != null && bb in Blocks {
        BlockAt(bb);
        MappedInPrefix(Model(), IndexOf(Blocks, bb));
      }
    }

    lemma NotYet(bb: BufferBlock, n: nat)
      requires 0 < n <= |Blocks| && Blocks[n - 1] != bb && n - 1 <= IndexOf(Blocks, bb)
      ensures n <= IndexOf(Blocks, bb)
    {
    }

    /** One round of the loop: the block behind the last mapped one is mapped. */
    method MapNext(n: nat, ghost j: nat)
      requires Valid() && n == Model().cut < |Blocks| && n <= j
      modifies this, Blocks[n]
      ensures Valid() && Blocks == old(Blocks) && Model().cut == n + 1
      ensures MapUpto(Model(), j) == MapUpto(old(Model()), j)
      ensures Blocks[n].Heads == old(Blocks[n].Heads)
    {
      hide Inv, Fits, MapBlock, MapUpto, Views, View, Linked, IndexOf;
      var t := Blocks[n];
      ghost var m := Model();
      ValidFacts();
      IndexUnique(Blocks, n);
      BlockAt(t);
      MappedInPrefix(m, n);
      assert t.BlkAddr == NULL_ADDR; // otherwise the source panics
      MapEither(m, n);
      MapMore(m, j);
      var _ := MapBhInternal(t);
    }

    /** Unlinks the block at position `i` from the list. */
    method CutOut(i: nat)
      requires i < |Blocks| && Linked()
      modifies this`Blocks
      ensures Linked() && Blocks == old(Blocks)[..i] + old(Blocks)[i + 1..]
      ensures Views() == old(Views())[..i] + old(Views())[i + 1..]
    {
      ghost var vs := Views();
      Blocks := Blocks[..i] + Blocks[i + 1..];
      forall j | 0 <= j < |Blocks| ensures View(Blocks[j]) == (vs[..i] + vs[i + 1..])[j] {
        assert Blocks[j] == old(Blocks)[if j < i then j else j + 1];
      }
      assert Views() == vs[..i] + vs[i + 1..];
    }

    /** Takes a block that left the list out of its bucket; the last mapped block
        moves back to its predecessor in the list. */
    method Forget(bb: BufferBlock, prev: BufferBlock?)
      modifies this`LastMappedBlock, this`MappedBuckets
      ensures LastMappedBlock == if bb == old(LastMappedBlock) then prev else old(LastMappedBlock)
      ensures MappedBuckets == UnlinkAll(old(MappedBuckets), bb)
      ensures Views() == old(Views()) && (old(Linked()) ==> Linked())
    {
      hide View, UnlinkAll;
      ghost var vs := Views();
      if bb == LastMappedBlock {
        LastMappedBlock := prev;
      }
      MappedBuckets := UnlinkAll(MappedBuckets, bb);
      assert Views() == vs;
    }

    /** Unlinks a block from the list and from its bucket. */
    method Remove(bb: BufferBlock)
      requires bb in Blocks && Linked()
      requires LastMappedBlock != null ==> LastMappedBlock in Blocks
      requires forall i, j :: 0 <= i < j < |Blocks| ==> Blocks[i] != Blocks[j]
      modifies this`LastMappedBlock, this`MappedBuckets, this`Blocks
      ensures Linked() && (LastMappedBlock != null ==> LastMappedBlock in Blocks) && bb !in Blocks
      ensures Blocks == old(Blocks)[..IndexOf(old(Blocks), bb)] + old(Blocks)[IndexOf(old(Blocks), bb) + 1..]
      ensures Model() == Free(old(Model()), IndexOf(old(Blocks), bb))
    {
      hide View, Views, IndexOf, UnlinkAll, Linked;
      var i := IndexOf(Blocks, bb);
      BlockAt(bb);
      IndexAfterRemove(Blocks, i);
      CutAfterRemove(Blocks, i, LastMappedBlock);
      var prev := if i == 0 then null else Blocks[i - 1];
      CutOut(i);
      Forget(bb, prev);
    }

    /** `ErofsBfree`. */
    method ErofsBfree(bb: BufferBlock)
      requires Valid() && bb in Blocks
      modifies this`LastMappedBlock, this`MappedBuckets, this`Blocks
      ensures Valid() && bb !in Blocks
      ensures Blocks == old(Blocks)[..IndexOf(old(Blocks), bb)] + old(Blocks)[IndexOf(old(Blocks), bb) + 1..]
      ensures Model() == Free(old(Model()), IndexOf(old(Blocks), bb))
    {
      hide Inv, Fits, Free, Views, View, Linked, IndexOf;
      ghost var s := Model();
      ghost var i := IndexOf(Blocks, bb);
      ValidFacts();
      BlockAt(bb);
      FreeInv(s, i);
      FreeFits(s, i);
      Remove(bb);
    }

    /** Takes head `bh` out of the list of its block. */
    method UnlinkHead(bh: BufferHead)
      requires Valid() && bh.Block in Blocks && bh in bh.Block.Heads
      modifies bh.Block, bh
      ensures Valid() && bh.Block == old(bh.Block) && bh.Op == DropDirectly
      ensures var i, k := IndexOf(Blocks, bh.Block), HeadIndex(old(bh.Block.Heads), bh);
        && IsHead(old(Model()), i, k)
        && Model() == old(Model()).(blocks := old(Model()).blocks[i := WithoutHead(old(Model()).blocks[i], k)])
      ensures |bh.Block.Heads| == |old(bh.Block.Heads)| - 1
      ensures bh.Block.Off == old(bh.Block.Off) && bh.Block.BlkAddr == old(bh.Block.BlkAddr)
      ensures bh.Block.Type == old(bh.Block.Type)
    {
      hide Inv, Fits;
      ghost var s := Model();
      var bb := bh.Block;
      ghost var i := IndexOf(Blocks, bb);
      var k := HeadIndex(bb.Heads, bh);
      ValidFacts();
      assert s.blocks[i] == View(bb);
      HeadOnce(s, i, k);
      bh.Op := DropDirectly;
      bb.Heads := bb.Heads[..k] + bb.Heads[k + 1..];
      assert View(bb) == WithoutHead(s.blocks[i], k);
      assert Model().blocks == s.blocks[i := WithoutHead(s.blocks[i], k)];
      WithoutHeadInv(s, i, k);
    }

    /** `BDrop`. */
    method BDrop(bh: BufferHead, tryRevoke: bool)
      requires Valid() && bh.Block in Blocks && bh in bh.Block.Heads
      modifies this, bh.Block, bh
      ensures Valid() && bh.Block == old(bh.Block)
      ensures var i, k := IndexOf(old(Blocks), bh.Block), HeadIndex(old(bh.Block.Heads), bh);
        && IsHead(old(Model()), i, k)
        && Model() == Drop(old(Model()), i, k, tryRevoke)
    {
      hide Inv, Fits, BlkRoundUp, Free, Drop, Revokes, Views, View, Linked, IndexOf, HeadIndex;
      ghost var s := Model();
      var bb := bh.Block;
      ghost var i := IndexOf(Blocks, bb);
      ghost var k := HeadIndex(bb.Heads, bh);
      ValidFacts();
      BlockAt(bb);
      RevokesIff(s, i, tryRevoke);
      var blkaddr := bb.BlkAddr;
      // Without its last head the block can give its address back if it is at the tail.
      var rollback := tryRevoke && blkaddr != NULL_ADDR
                      && TailBlkAddr == U32(blkaddr + U32(BlkRoundUp(Bits, bb.Off)));
      UnlinkHead(bh);
      DropIs(s, i, k, tryRevoke);
      if bb.Heads != [] {
        return;
      }
      DropInv(s, i, k, tryRevoke);
      DropFits(s, i, k, tryRevoke);
      BlockAt(bb);
      FreeEmptied(bb, rollback, blkaddr);
    }

    /** Frees a block without heads: it is counted as metadata, or gives its address
        back. */
    method FreeEmptied(bb: BufferBlock, rollback: bool, blkaddr: nat)
      requires Valid() && bb in Blocks
      requires var m, b := Model(), View(bb);
        var t := Free(m, IndexOf(Blocks, bb)).(
          meta := if !rollback && b.typ != DATA then U32(m.meta + BlkRoundUp(Bits, b.off)) else m.meta,
          tail := if rollback then blkaddr else m.tail);
        Inv(t) && Fits(t)
      modifies this
      ensures Valid()
      ensures IndexOf(old(Blocks), bb) < |old(Model()).blocks|
      ensures var m, b := old(Model()), old(View(bb));
        Model() == Free(m, IndexOf(old(Blocks), bb)).(
          meta := if !rollback && b.typ != DATA then U32(m.meta + BlkRoundUp(Bits, b.off)) else m.meta,
          tail := if rollback then blkaddr else m.tail)
    {
      hide Inv, Fits, BlkRoundUp, Free, Views, View, Linked, IndexOf, U32;
      BlockAt(bb);
      ghost var m, i := Model(), IndexOf(Blocks, bb);
      FreeMeta(m, i, m.meta);
      FreeMeta(m, i, U32(m.meta + BlkRoundUp(Bits, bb.Off)));
      if !rollback && bb.Type != DATA {
        AddMeta(BlkRoundUp(Bits, bb.Off));
      }
      ErofsBfree(bb);
      if rollback {
        SetTail(blkaddr);
      }
    }

    /** Adds to the count of metadata blocks. */
    method AddMeta(n: nat)
      requires Valid()
      modifies this`MetaBlkCnt
      ensures Valid() && Model() == old(Model()).(meta := U32(old(Model()).meta + n))
    {
      hide Inv, Fits;
      ghost var s := Model();
      MetaBlkCnt := U32(MetaBlkCnt + n);
      assert Model().blocks == s.blocks;
      MetaIrrelevant(s, Model());
    }

    /** The bucket loop of `BfindForAttach`. The source panics where `TryBucket`
        asserts. */
    method FindInBuckets(q: Request) returns (bb: BufferBlock?, usedmax: int)
      requires Valid() && WellFormed(Model(), q) && 0 < Total(q) < Pow2(Bits)
      ensures Valid() && Model() == old(Model())
      ensures usedmax >= 0
      ensures bb == null ==> usedmax == 0 && NothingAbove(Model(), q, 0)
      ensures bb != null ==>
        var s, i := Model(), IndexOf(Blocks, bb);
        && bb in Blocks && i < |s.blocks| && Indexable(s, i) && Eligible(s, q, i) && FirstInBucket(s, i)
        && NothingAbove(s, q, Fill(s, i)) && usedmax == Used(s, q, i)
    {
      hide Inv, Fits, Views, View, Linked, IndexOf, TryAttach, RoundDown, NothingAbove, HeadedByLast, Eligible, Used, Fill, FirstInBucket;
      ghost var s := Model();
      ValidFacts();
      RequestIsValid(s, q);
      BlockSizes(Bits);
      RoundDownMultiple(Pow2(Bits) - Total(q), q.align);
      bb := null;
      usedmax := 0;
      var usedBefore := RoundDown(Pow2(Bits) - (q.size + q.req + q.inl), q.align);
      NothingAtTop(s, q);
      while usedBefore > 0
        invariant 0 <= usedBefore <= HighestFill(s, q) < 4096
        invariant Valid() && Model() == s
        invariant NothingAbove(s, q, usedBefore) && bb == null && usedmax == 0
      {
        bb, usedmax := TryBucket(q, usedBefore);
        if bb != null {
          return;
        }
        NothingLower(s, q, usedBefore - 1);
        usedBefore := usedBefore - 1;
      }
    }

    /** One round of the bucket loop: the head of the bucket, unless that is empty or
        headed by the last mapped block. */
    method TryBucket(q: Request, u: nat) returns (bb: BufferBlock?, used: int)
      requires Valid() && WellFormed(Model(), q) && 0 < Total(q) < Pow2(Bits)
      requires 0 < u <= HighestFill(Model(), q) && u < 4096
      ensures Valid() && Model() == old(Model())
      ensures (q.typ, u) in Model().buckets
      ensures bb == null ==>
        && used == 0
        && (Model().buckets[(q.typ, u)] == [] || HeadedByLast(Model(), (q.typ, u)))
      ensures bb != null ==>
        var s, i := Model(), IndexOf(Blocks, bb);
        && bb in Blocks && i < |s.blocks| && Indexable(s, i) && Eligible(s, q, i) && FirstInBucket(s, i)
        && Fill(s, i) == u && used == Used(s, q, i) && used >= 0
    {
      hide Inv, Fits, Views, View, Linked, IndexOf, TryAttach, RoundDown;
      ghost var s := Model();
      ValidFacts();
      RequestIsValid(s, q);
      MappedBucketsTotal();
      var bt := MappedBuckets[(q.typ, u)];
      if bt == [] {
        return null, 0;
      }
      var cur := bt[0];
      BucketMember((q.typ, u), cur);
      BlockAt(cur);
      var n := IndexOf(Blocks, cur) + 1;
      BucketHead(s, q, u, n - 1);
      HeadOfBucket(s, (q.typ, u), n - 1);
      if n < |Blocks| {
        IndexUnique(Blocks, n);
        BlockAt(Blocks[n]);
      }
      CutIsLast();
      if n == |Blocks| || Blocks[n].BlkAddr == NULL_ADDR {
        // Only the last mapped block has no mapped successor; the walk takes it.
        assert cur == LastMappedBlock;
        return null, 0;
      }
      assert cur.Type == q.typ;
      assert cur.BlkAddr != NULL_ADDR;
      assert u == Mask(cur.Off, Bits);
      CanTry(s, q, n - 1);
      var ret := BattachInternal(cur, null, q.size, q.align, q.req + q.inl, true);
      assert ret >= 0;
      used := ret + q.req + q.inl;
      assert used <= Pow2(Bits);
      bb := cur;
    }

    lemma NothingAtTop(s: State, q: Request)
      requires 0 < q.align && Total(q) < BlkSiz(s)
      ensures NothingAbove(s, q, HighestFill(s, q))
    {
    }

    lemma NothingLower(s: State, q: Request, u: nat)
      requires 0 < q.align && Total(q) < BlkSiz(s) && NothingAbove(s, q, u + 1)
      requires (q.typ, u + 1) in s.buckets ==> s.buckets[(q.typ, u + 1)] == [] || HeadedByLast(s, (q.typ, u + 1))
      ensures NothingAbove(s, q, u)
    {
    }

    /** The position of a choice in the block list. */
    ghost function Choice(bb: BufferBlock?): nat
      reads this
    {
      if bb == null then 0 else IndexOf(Blocks, bb)
    }

    /** The walk of `BfindForAttach` from the last mapped block to the end. */
    method WalkFromLast(q: Request, found: BufferBlock?, usedFound: int) returns (bb: BufferBlock?)
      requires Valid() && WellFormed(Model(), q) && 0 < FreshFill(Model(), q)
      requires found != null ==> found in Blocks
      requires usedFound >= 0
      requires usedFound == if found == null then 0 else Used(Model(), q, Choice(found))
      requires BestSoFar(Model(), q, if Model().cut == 0 then 0 else Model().cut - 1, found != null, Choice(found))
      ensures Valid() && Model() == old(Model())
      ensures bb != null ==> bb in Blocks
      ensures BestSoFar(Model(), q, |Blocks|, bb != null, Choice(bb))
    {
      hide Inv, Fits, Views, View, Linked, IndexOf, TryAttach, BestSoFar, Used, Eligible;
      ghost var s := Model();
      ValidFacts();
      RequestIsValid(s, q);
      bb := found;
      var usedmax := usedFound;
      CutIsLast();
      var c := if LastMappedBlock == null then 0 else IndexOf(Blocks, LastMappedBlock);
      while c < |Blocks|
        invariant c <= |Blocks| && c >= (if s.cut == 0 then 0 else s.cut - 1)
        invariant Valid() && Model() == s
        invariant bb != null ==> bb in Blocks
        invariant usedmax >= 0
        invariant usedmax == if bb == null then 0 else Used(s, q, Choice(bb))
        invariant BestSoFar(s, q, c, bb != null, Choice(bb))
      {
        var cur := Blocks[c];
        IndexUnique(Blocks, c);
        BlockAt(cur);
        ghost var was := Choice(bb);
        WalkStep(s, q, c, bb != null, was, usedmax);
        var used := FillAfter(q, cur);
        if usedmax < used {
          bb := cur;
          usedmax := used;
          assert Choice(bb) == c;
        } else {
          assert Choice(bb) == was;
        }
        c := c + 1;
      }
    }

    /** The body of the walk: the fill block `cur` would have, or zero when it is
        to be skipped. */
    method FillAfter(q: Request, cur: BufferBlock) returns (used: int)
      requires Valid() && WellFormed(Model(), q) && 0 < FreshFill(Model(), q)
      requires cur in Blocks && !Indexable(Model(), IndexOf(Blocks, cur))
      ensures Valid() && Model() == old(Model())
      ensures used == if Eligible(Model(), q, IndexOf(Blocks, cur)) then Used(Model(), q, IndexOf(Blocks, cur)) else 0
    {
      hide Inv, Fits, Views, View, Linked, IndexOf, TryAttach;
      ghost var s := Model();
      BlockAt(cur);
      RequestIsValid(s, q);
      CanTry(s, q, IndexOf(Blocks, cur));
      var blksiz := Pow2(Bits);
      var used0 := Mask(q.size + q.req, Bits) + q.inl;
      var usedBefore := Mask(cur.Off, Bits);
      // Such a block is no candidate.
      if usedBefore == 0 || cur.Type != q.typ {
        return 0;
      }
      var ret := BattachInternal(cur, null, q.size, q.align, q.req + q.inl, true);
      if ret < 0 {
        return 0;
      }
      used := Mask(ret + q.req, Bits) + q.inl;
      // Neither is one that splits the inline part or fills less than it did and
      // less than a new block would.
      if used > blksiz || (used < usedBefore && used < used0) {
        return 0;
      }
    }

    /** Both searches of `BfindForAttach`. */
    method SearchBlocks(q: Request) returns (bb: BufferBlock?)
      requires Valid() && WellFormed(Model(), q) && 0 < FreshFill(Model(), q)
      ensures Valid() && Model() == old(Model())
      ensures bb == null ==> forall i :: 0 <= i < |Model().blocks| ==> !Eligible(Model(), q, i)
      ensures bb != null ==> bb in Blocks && BestFit(Model(), q, Choice(bb))
    {
      hide Inv, Fits, Views, View, Linked, IndexOf, TryAttach, BestSoFar, BestFit, Eligible, Used;
      ghost var s := Model();
      RequestIsValid(s, q);
      PositiveTotal(s, q);
      bb := null;
      var usedmax := 0;
      // First the index, for blocks in front of the last mapped one.
      if q.size + q.req + q.inl < Pow2(Bits) {
        bb, usedmax := FindInBuckets(q);
      }
      BucketPhaseDone(s, q, bb != null, Choice(bb), if s.cut == 0 then 0 else s.cut - 1);
      ValidFacts();
      // Then the rest of the list, which may still grow.
      bb := WalkFromLast(q, bb, usedmax);
      SearchDone(s, q, bb != null, Choice(bb));
    }

    /** `BfindForAttach`. */
    method BfindForAttach(q: Request) returns (r: FindResult)
      requires Valid() && WellFormed(Model(), q)
      ensures Valid() && Model() == old(Model())
      ensures r.NoSpace? <==> (q.size + q.req) % Pow2(Bits) + q.inl > Pow2(Bits)
      ensures r.Use? ==> r.block in Blocks && q.align != Pow2(Bits) && FreshFill(Model(), q) > 0
                         && BestFit(Model(), q, IndexOf(Blocks, r.block))
      ensures r.NeedNew? ==>
        || FreshFill(Model(), q) == 0 || q.align == Pow2(Bits)
        || forall i :: 0 <= i < |Model().blocks| ==> !Eligible(Model(), q, i)
      // In other words: a walked block that takes the request, inline part included,
      // is passed over for a new one only if it would be filled less than it is and
      // less than the new one, and no such block is ever returned.
      ensures r.NeedNew? && 0 < (q.size + q.req) % Pow2(Bits) + q.inl && q.align != Pow2(Bits) ==>
        forall j :: 0 <= j < |Model().blocks| && Model().cut <= j + 1 ==>
          var b, off := Pow2(Bits), Model().blocks[j].off;
          var ret := TryAttach(Model(), j, q.size, q.align, q.req + q.inl);
          Model().blocks[j].typ == q.typ && off % b != 0 && ret >= 0 && (ret + q.req) % b + q.inl <= b ==>
            (ret + q.req) % b + q.inl < off % b && (ret + q.req) % b + q.inl < (q.size + q.req) % b + q.inl
      ensures r.Use? ==>
        var b, i := Pow2(Bits), IndexOf(Blocks, r.block);
        && i < |Model().blocks| && Model().blocks[i].typ == q.typ && Model().blocks[i].off % b != 0
        && var ret := TryAttach(Model(), i, q.size, q.align, q.req + q.inl);
        && ret >= 0
        && (Model().cut <= i + 1 ==>
              && (ret + q.req) % b + q.inl <= b
              && ((ret + q.req) % b + q.inl >= Model().blocks[i].off % b
                  || (ret + q.req) % b + q.inl >= (q.size + q.req) % b + q.inl))
    {
      hide Inv, Fits, Views, View, Linked, IndexOf, TryAttach, BestFit, Eligible, Used;
      ghost var s := Model();
      var used0 := Mask(q.size + q.req, Bits) + q.inl;
      // The inline part never fits.
      if used0 > Pow2(Bits) {
        return NoSpace;
      }
      if used0 == 0 || q.align == Pow2(Bits) {
        return NeedNew;
      }
      RequestIsValid(s, q);
      PositiveTotal(s, q);
      var bb := SearchBlocks(q);
      if bb == null {
        NoneTakes(s, q);
        return NeedNew;
      }
      ChosenBlock(s, q, Choice(bb));
      r := Use(bb);
    }

    lemma MappedBucketsTotal()
      requires Valid()
      ensures forall k :: k in MappedBuckets <==> IsKey(k)
    {
    }

    lemma BucketMember(k: Key, bb: BufferBlock)
      requires Valid() && k in MappedBuckets && bb in MappedBuckets[k]
      ensures bb in Blocks
    {
      var s := Model();
      assert Belongs(s, bb, k);
      var j :| 0 <= j < s.cut && j < |s.blocks| && s.blocks[j].ref == bb && KeyOf(s.bits, s.blocks[j]) == k;
      assert s.blocks[j] == View(Blocks[j]);
    }

    lemma CutIsLast()
      requires Valid()
      ensures Model().cut == (if LastMappedBlock == null then 0 else IndexOf(Blocks, LastMappedBlock) + 1)
      ensures LastMappedBlock != null ==> LastMappedBlock in Blocks
    {
    }

    // ------------------------------------------------------------ allocation

    /** The new-block arm of `Balloc`. */
    method NewBuffer(typ: int) returns (bb: BufferBlock)
      requires Valid() && (typ == DATA || typ == META)
      modifies this`Blocks
      ensures Valid() && fresh(bb) && bb in Blocks && bb.Heads == []
      ensures Blocks == old(Blocks)[..InsertAt(old(Model()), typ)] + [bb] + old(Blocks)[InsertAt(old(Model()), typ)..]
      ensures InsertAt(old(Model()), typ) <= |old(Blocks)|
      ensures FreshBlock(old(Model()), bb) && Model() == NewBlock(old(Model()), bb, typ)
    {
      hide Inv, Fits, IndexOf, Linked, View, Views;
      ghost var s := Model();
      ValidFacts();
      bb := AllocBlock(typ);
      FreshBlockUnlinked(bb);
      NewBlockInv(s, bb, typ);
      NewBlockFits(s, bb, typ);
      Insert(bb, if typ == DATA then (if LastMappedBlock == null then 0 else IndexOf(Blocks, LastMappedBlock) + 1) else |Blocks|);
    }

    /** A new object, not linked yet. */
    method AllocBlock(typ: int) returns (bb: BufferBlock)
      ensures fresh(bb) && bb !in Blocks && bb.Heads == []
      ensures View(bb) == BlockV(bb, NULL_ADDR, typ, 0, [])
      ensures Views() == old(Views()) && (old(Linked()) ==> Linked())
    {
      hide View;
      ghost var vs := Views();
      bb := new BufferBlock(typ);
      EmptyView(bb);
      assert Views() == vs;
    }

    lemma FreshBlockUnlinked(bb: BufferBlock)
      requires Valid() && bb !in Blocks
      ensures FreshBlock(Model(), bb)
    {
    }

    /** Links a block at position `p` behind the last mapped one. */
    method Insert(bb: BufferBlock, p: nat)
      requires bb !in Blocks && bb.Heads == [] && Linked() && Cut() <= p <= |Blocks|
      requires LastMappedBlock != null ==> LastMappedBlock in Blocks
      modifies this`Blocks
      ensures Linked() && Blocks == old(Blocks)[..p] + [bb] + old(Blocks)[p..]
      ensures LastMappedBlock != null ==> LastMappedBlock in Blocks
      ensures Model() == old(Model()).(blocks := old(Views())[..p] + [View(bb)] + old(Views())[p..])
    {
      ghost var vs := Views();
      IndexAfterInsert(Blocks, bb, p, LastMappedBlock);
      Blocks := Blocks[..p] + [bb] + Blocks[p..];
      forall j | 0 <= j < |Blocks| ensures View(Blocks[j]) == (vs[..p] + [View(bb)] + vs[p..])[j] {
        assert Blocks[j] == if j < p then old(Blocks)[j] else if j == p then bb else old(Blocks)[j - 1];
      }
      assert Views() == vs[..p] + [View(bb)] + vs[p..];
    }

    /** The block for a request: the best fitting one that is there already, or
        else a new one. */
    method TakeBlock(q: Request) returns (bb: BufferBlock?, ghost at: nat)
      requires Valid() && WellFormed(Model(), q) && Room(Model(), BlkRoundUp(Bits, q.size))
      modifies this`Blocks
      ensures Valid() && WellFormed(Model(), q) && Room(Model(), BlkRoundUp(Bits, q.size))
      ensures bb == null <==> FreshFill(old(Model()), q) > Pow2(Bits)
      ensures bb == null ==> Model() == old(Model()) && Blocks == old(Blocks)
      ensures bb != null ==>
        && bb in Blocks && at == IndexOf(Blocks, bb) && TakenFrom(old(Model()), q, Model(), at)
        && Try(Model(), q, at) >= 0 && Model().blocks[at].ref == bb
      ensures bb != null && bb !in old(Blocks) ==> fresh(bb)
    {
      hide Inv, Fits, Views, View, Linked, IndexOf, TryAttach, Room, BestFit, Eligible, NewBlock;
      ghost var s := Model();
      ValidFacts();
      at := 0;
      var r := BfindForAttach(q);
      if r.NoSpace? {
        return null, at;
      }
      if r.Use? {
        bb := r.block;
        at := IndexOf(Blocks, bb);
        BlockAt(bb);
        BestFitTakes(s, q, at);
      } else {
        bb := NewBuffer(q.typ);
        at := InsertAt(s, q.typ);
        NewBlockReady(s, q, bb, BlkRoundUp(Bits, q.size));
        IndexInserted(old(Blocks), bb, at);
      }
    }

    /** `Balloc`, with the attach it announces. `base` is the state the head was
        attached in and `at` the position of its block. */
    method Balloc(bufType: int, size: nat, requiredExt: nat, inlineExt: nat)
      returns (bh: BufferHead?, ghost base: State, ghost at: nat)
      requires Valid() && size + requiredExt + inlineExt + 4096 < TWO_32
      requires Room(Model(), BlkRoundUp(Bits, size))
      modifies this, Blocks
      ensures Valid()
      ensures bh == null <==>
        GetAlignSize(Bits, bufType).0 < 0 || (size + requiredExt) % Pow2(Bits) + inlineExt > Pow2(Bits)
      ensures bh == null ==> Model() == old(Model())
      ensures bh != null ==>
        && fresh(bh) && bh.Op == NoOp && bh.Block != null && bh.Block in Blocks && bh in bh.Block.Heads
        && IndexOf(Blocks, bh.Block) == at
      ensures bh != null ==>
        var q := RequestFor(Bits, bufType, size, requiredExt, inlineExt);
        && at < |base.blocks| && base.blocks[at].ref == bh.Block
        && TakenFrom(old(Model()), q, base, at) && Try(base, q, at) >= 0
        && Model() == Attached(base, at, Fresh(bh, NoOp), size, q.align, requiredExt + inlineExt)
    {
      hide Inv, Fits, Views, View, Linked, IndexOf, TryAttach, Room, Attached, TakenFrom;
      base, at := Model(), 0;
      ValidFacts();
      var q := RequestFor(Bits, bufType, size, requiredExt, inlineExt);
      AlignSizesDivide(Bits, bufType);
      if GetAlignSize(Bits, bufType).0 < 0 {
        return null, base, at;
      }
      var bb;
      bb, at := TakeBlock(q);
      if bb == null {
        return null, base, at;
      }
      base := Model();
      ValidFacts();
      bh := AttachNew(bb, q, base, at);
    }

    /** Attaches a new head for a request that the block is known to take. */
    method AttachNew(bb: BufferBlock, q: Request, ghost base: State, ghost at: nat) returns (bh: BufferHead)
      requires Valid() && bb in Blocks && base == Model() && at == IndexOf(Blocks, bb)
      requires WellFormed(base, q) && at < |base.blocks| && Try(base, q, at) >= 0
      requires Room(base, BlkRoundUp(Bits, q.size))
      modifies this, bb
      ensures Valid() && Blocks == old(Blocks) && fresh(bh) && bh.Op == NoOp
      ensures bh.Block == bb && bb in Blocks && bh in bb.Heads
      ensures Model() == Attached(base, at, Fresh(bh, NoOp), q.size, q.align, q.req + q.inl)
    {
      hide Inv, Fits, Views, View, Linked, IndexOf, TryAttach, Room, Attached;
      bh := new BufferHead();
      assert AllHeads() == old(AllHeads());
      assert Views() == base.blocks;
      UnlinkedIsFresh(bh);
      RequestIsValid(base, q);
      CanTry(base, q, at);
      CanTryWith(base, q, at, Fresh(bh, NoOp));
      AttachFits(base, at, Fresh(bh, NoOp), q.size, q.align, q.req + q.inl);
      var ret := BattachInternal(bb, bh, q.size, q.align, q.req + q.inl, false);
      LinkedAfterAttach(bh, bb, base, at, q.size, q.align, q.req + q.inl);
    }

    lemma UnlinkedIsFresh(bh: BufferHead)
      requires Valid() && forall b :: b in Blocks ==> bh !in b.Heads
      ensures FreshHead(Model(), Fresh(bh, bh.Op))
    {
      hide Inv, Fits, Linked;
      forall i: nat, k: nat | IsHead(Model(), i, k) ensures Model().blocks[i].heads[k].ref != bh {
        assert Model().blocks[i] == View(Blocks[i]);
      }
    }

    /** The attached head is the last of its block. */
    lemma LinkedAfterAttach(bh: BufferHead, bb: BufferBlock, s: State, i: nat, incr: nat, align: nat, extra: nat)
      requires Valid() && bb in Blocks && i == IndexOf(Blocks, bb) && i < |s.blocks|
      requires Model() == Attached(s, i, Fresh(bh, bh.Op), incr, align, extra)
      ensures bb.Heads != [] && bb.Heads[|bb.Heads| - 1] == bh && bh.Block == bb && bh in bb.Heads
    {
      LastAttached(s, i, Fresh(bh, bh.Op), incr, align, extra);
      assert Model().blocks[i] == View(bb);
      LastHead(bb);
      hide Inv, Fits;
      assert bb.Heads[|bb.Heads| - 1] == bh;
    }

    /** `Battach`: a further head behind `bh`, which has to be the last of its
        block. */
    method Battach(bh: BufferHead, bufType: int, size: nat) returns (nbh: BufferHead?)
      requires Valid() && bh.Block in Blocks && bh in bh.Block.Heads
      requires GetAlignSize(Bits, bufType).0 >= 0 && size + 4096 < TWO_32
      requires Room(Model(), BlkRoundUp(Bits, size))
      modifies this, bh.Block
      ensures Valid() && Blocks == old(Blocks)
      ensures var s, i := old(Model()), IndexOf(Blocks, old(bh.Block));
        var align := GetAlignSize(Bits, bufType).0;
        && i < |s.blocks|
        && (nbh != null <==> old(bh.Block.Heads[|bh.Block.Heads| - 1]) == bh && TryAttach(s, i, size, align, 0) >= 0)
        && (nbh == null ==> Model() == s)
        && (nbh != null ==> fresh(nbh) && Model() == Attached(s, i, Fresh(nbh, NoOp), size, align, 0))
    {
      hide Inv, Fits, Views, View, Linked, IndexOf, TryAttach, Room, Attached;
      var bb := bh.Block;
      ghost var s := Model();
      BlockAt(bb);
      ValidFacts();
      AlignSizesDivide(Bits, bufType);
      var q := Request(META, size, 0, 0, GetAlignSize(Bits, bufType).0);
      // Behind any other head there is no space.
      if bb.Heads[|bb.Heads| - 1] != bh {
        return null;
      }
      RequestIsValid(s, q);
      CanTry(s, q, IndexOf(Blocks, bb));
      var ok, _ := AttachTest(bb, size, q.align, 0);
      if !ok {
        return null;
      }
      nbh := AttachNew(bb, q, s, IndexOf(Blocks, bb));
    }

    /** `BhBalloon`: the last head of a block grows by `incr` bytes. */
    method BhBalloon(bh: BufferHead, incr: nat) returns (ret: int)
      requires Valid() && bh.Block in Blocks && bh in bh.Block.Heads
      requires incr + 4096 < TWO_32 && Room(Model(), BlkRoundUp(Bits, incr))
      modifies this, bh.Block
      ensures Valid() && Blocks == old(Blocks)
      ensures var s, i := old(Model()), IndexOf(Blocks, old(bh.Block));
        && i < |s.blocks|
        && ret == (if old(bh.Block.Heads[|bh.Block.Heads| - 1]) == bh then TryAttach(s, i, incr, 1, 0) else -EINVAL)
        && Model() == if ret < 0 then s else Attached(s, i, NoHead, incr, 1, 0)
    {
      hide Inv, Fits, Views, View, Linked, IndexOf, TryAttach, Room, Attached;
      var bb := bh.Block;
      ghost var s := Model();
      ghost var i := IndexOf(Blocks, bb);
      BlockAt(bb);
      if bb.Heads[|bb.Heads| - 1] != bh {
        return -EINVAL;
      }
      ghost var q := Request(META, incr, 0, 0, 1);
      RequestIsValid(s, q);
      CanTry(s, q, i);
      OffsetsBounded(s, i);
      if TryAttach(s, i, incr, 1, 0) >= 0 { AttachFits(s, i, NoHead, incr, 1, 0); }
      ret := BattachInternal(bb, null, incr, 1, 0, false);
    }

    /** `BhTell`. */
    method BhTell(bh: BufferHead, end: bool) returns (offset: nat)
      requires Valid() && bh.Block in Blocks && bh in bh.Block.Heads
      ensures Valid() && Model() == old(Model())
      ensures var i, k := IndexOf(Blocks, bh.Block), HeadIndex(bh.Block.Heads, bh);
        IsHead(Model(), i, k) && offset == Tell(Model(), i, k, end)
      ensures bh.Block.BlkAddr == 0xFFFF_FFFF ==> offset == 0xFFFF_FFFF_FFFF_FFFF
    {
      hide Inv, Fits, Linked, Views, View, IndexOf, HeadIndex;
      var bb := bh.Block;
      BlockAt(bb);
      HeadAt(bb, bh);
      if bb.BlkAddr == NULL_ADDR {
        return NULL_ADDR_UL;
      }
      if end {
        var n := HeadIndex(bb.Heads, bh) + 1;
        // The list is circular: behind the last head comes the block's own.
        offset := if n < |bb.Heads| then bb.Heads[n].Off else bb.Off;
      } else {
        offset := bh.Off;
      }
      offset := bb.BlkAddr * Pow2(Bits) + offset;
    }

    // -------------------------------------------------------------- flushing

    /** The inner loop of `ErofsBflush` leaves the manager consistent. */
    method FlushHeads(bb: BufferBlock) returns (ret: int, skip: bool)
      requires Valid() && bb in Blocks
      modifies bb`Heads
      ensures Valid()
      ensures var i, s := IndexOf(Blocks, bb), old(Model());
        && i < |s.blocks| && Model() == Visited(s, i)
        && (ret == if FirstBusy(s.blocks[i].heads) < |s.blocks[i].heads| then -EBUSY else 0)
        && (ret == 0 ==> (skip <==> Skips(s.blocks[i].heads)))
    {
      hide Inv, Fits, IndexOf, Kept, FirstBusy;
      ghost var s := Model();
      ghost var i := IndexOf(Blocks, bb);
      BlockAt(bb);
      ValidFacts();
      VisitedInv(s, i);
      ret, skip := FlushOps(bb);
      assert Views() == Visited(s, i).blocks;
    }

    /** Zeroes the bytes between the data of a block and the end of its extent. */
    method FillPadding(p: BufferBlock, blkaddr: nat)
      requires Valid() && p in Blocks && blkaddr == EndAddr(Bits, View(p))
      modifies this`Dev
      ensures Valid() && blkaddr * Pow2(Bits) - Padding(Bits, p.Off) >= 0
      ensures Model() == old(Model()).(dev :=
        if Padding(Bits, p.Off) == 0 then old(Model()).dev
        else Pwrite(old(Model()).dev, blkaddr * Pow2(Bits) - Padding(Bits, p.Off), Zeros(Padding(Bits, p.Off))))
    {
      hide Inv, Fits, Views, View, Linked, Padding, EndAddr, IndexOf, Pwrite, Zeros, Pow2;
      EndBehindPadding(Bits, p);
      PaddingIs(Bits, p.Off);
      var padding := Pow2(Bits) - Mask(p.Off, Bits);
      if padding != Pow2(Bits) {
        FillZero(blkaddr * Pow2(Bits) - padding, padding);
      }
    }

    /** Zeroes the padding of a flushed block, accounts for it and frees it. */
    method RetireBlock(p: BufferBlock, blkaddr: nat)
      requires Valid() && p in Blocks && blkaddr == EndAddr(Bits, View(p))
      modifies this
      ensures Valid() && p !in Blocks
      ensures Blocks == old(Blocks)[..IndexOf(old(Blocks), p)] + old(Blocks)[IndexOf(old(Blocks), p) + 1..]
      ensures IndexOf(old(Blocks), p) < |old(Model()).blocks|
      ensures Model() == Retire(old(Model()), IndexOf(old(Blocks), p))
    {
      hide Inv, Fits, Views, View, Linked, IndexOf, Free, Padding, BlkRoundUp, Retire, EndAddr, Pwrite, Zeros, U32, Cut;
      EndOfBlock(Bits, p);
      BlockAt(p);
      RetireIs(Model(), IndexOf(Blocks, p));
      FillPadding(p, blkaddr);
      if p.Type != DATA {
        AddMeta(BlkRoundUp(Bits, p.Off));
      }
      ErofsBfree(p);
    }

    /** `ErofsDevFillzero` with complete writes. */
    method FillZero(pos: nat, n: nat)
      requires Valid()
      modifies this`Dev
      ensures Valid() && Model() == old(Model()).(dev := Pwrite(old(Model()).dev, pos, Zeros(n)))
    {
      hide Inv, Fits;
      ghost var s := Model();
      Dev := Pwrite(Dev, pos, Zeros(n));
      assert Views() == s.blocks;
      InvSame(s, Model());
      FitsSame(s, Model());
    }

    /** The body of the outer loop of `ErofsBflush`: block `p` is mapped, its
        heads are flushed, and unless one of them skips the write it is freed. */
    method FlushBlock(p: BufferBlock) returns (ret: int, kept: bool)
      requires Valid() && p in Blocks && IndexOf(Blocks, p) <= Cut()
      modifies this, p
      ensures Valid() && IndexOf(old(Blocks), p) < |old(Model()).blocks|
      ensures var i := IndexOf(old(Blocks), p);
        var f := Visited(MapBlock(old(Model()), i), i);
        var hs := old(Model()).blocks[i].heads;
        && (ret == if FirstBusy(hs) < |hs| then -EBUSY else 0)
        && (ret == 0 ==> (kept <==> Skips(hs)))
        && Model() == (if ret < 0 || kept then f else Retire(f, i))
      ensures ret < 0 || kept ==> Blocks == old(Blocks)
      ensures !(ret < 0 || kept) ==>
        Blocks == old(Blocks)[..IndexOf(old(Blocks), p)] + old(Blocks)[IndexOf(old(Blocks), p) + 1..]
    {
      hide Inv, Fits, Views, View, Linked, IndexOf, MapBlock, Visited, Retire, Free, BlkRoundUp, EndAddr, FirstBusy, Skips, Cut;
      ghost var m := Model();
      ghost var i := IndexOf(Blocks, p);
      ValidFacts();
      BlockAt(p);
      MapEither(m, i);
      var blkaddr := MapBhInternal(p);
      EndOfBlock(Bits, p);
      ret, kept := FlushHeads(p);
      if ret == 0 && !kept {
        EndOfBlock(Bits, p);
        RetireBlock(p, blkaddr);
      }
    }

    /** `ErofsBflush`: flushes everything in front of block `stop`, or everything
        for a nil pointer. */
    method ErofsBflush(stop: BufferBlock?) returns (ret: int)
      requires Valid()
      modifies this, Blocks
      ensures Valid()
      ensures Model() == FlushFrom(old(Model()), 0, stop).state && ret == FlushFrom(old(Model()), 0, stop).ret
    {
      hide Inv, Fits, Views, View, Linked, IndexOf, MapBlock, Visited, Retire, FlushFrom, FirstBusy, Skips;
      ghost var s := Model();
      ValidFacts();
      var i := 0;
      while i < |Blocks|
        invariant Valid() && i <= Model().cut <= |Blocks| == |Model().blocks|
        invariant forall b :: b in Blocks ==> b in old(Blocks)
        invariant FlushFrom(Model(), i, stop) == FlushFrom(s, 0, stop)
        decreases |Blocks| - i
      {
        ghost var m := Model();
        var p := Blocks[i];
        ValidFacts();
        IndexUnique(Blocks, i);
        BlockAt(p);
        FlushRoundIs(m, i, stop);
        if p == stop {
          return 0;
        }
        var r, kept := FlushBlock(p);
        if r < 0 {
          return r;
        }
        if kept {
          i := i + 1;
        }
        ValidFacts();
      }
      FlushEnds(Model(), i, stop);
      ret := 0;
    }

    // -------------------------------------------------------- the superblock

    lemma OneOwner(bh: BufferHead)
      requires Linked()
      ensures forall b :: b in Blocks && b != bh.Block ==> bh !in b.Heads
    {
    }

    /** Sets the flush operation of a linked head. */
    method SetOp(bh: BufferHead, op: HeadOp)
      requires Valid() && bh.Block in Blocks && bh in bh.Block.Heads
      modifies bh`Op
      ensures Valid() && bh.Op == op
      ensures var i, k := IndexOf(Blocks, bh.Block), HeadIndex(bh.Block.Heads, bh);
        IsHead(old(Model()), i, k) && Model() == WithOp(old(Model()), i, k, op)
    {
      hide Inv, Fits, IndexOf, HeadIndex;
      ghost var s := Model();
      ghost var bb := bh.Block;
      ghost var i := IndexOf(Blocks, bb);
      ghost var k := HeadIndex(bb.Heads, bh);
      ValidFacts();
      BlockAt(bb);
      HeadOnce(s, i, k);
      WithOpInv(s, i, k, op);
      OneOwner(bh);
      bh.Op := op;
      assert View(bb).heads == WithOp(s, i, k, op).blocks[i].heads;
      assert Views() == WithOp(s, i, k, op).blocks;
    }

    /** In a manager with a single head positions are zero. */
    lemma SoleAt(bh: BufferHead, bb: BufferBlock)
      requires Valid() && bh.Block == bb && bb in Blocks && bh in bb.Heads
      requires |Model().blocks| == 1 && |Model().blocks[0].heads| == 1
      ensures IndexOf(Blocks, bb) == 0 && HeadIndex(bb.Heads, bh) == 0 && |bb.Heads| == 1 && bb.Heads[0] == bh
      ensures bb.BlkAddr == Model().blocks[0].addr && Blocks == [bb]
    {
      BlockAt(bb);
    }

    lemma FreshIsEmpty()
      requires Valid() && Blocks == [] && LastMappedBlock == null
      ensures Empty(Model())
    {
    }

    /** The head of the superblock grows to its full size. */
    method GrowSuperblock(bh: BufferHead, ghost s: State, ghost bb: BufferBlock)
      requires Valid() && Empty(s) && Room(s, BlkRoundUp(Bits, SUPER_END)) && s.bits == Bits
      requires bh.Block == bb && bb in Blocks && bh in bb.Heads
      requires Model() == Sole(s, bb, bh, 0, SkipWrite)
      modifies this, bb
      ensures Valid() && Model() == Sole(s, bb, bh, SUPER_END, SkipWrite)
      ensures bh.Block == bb && bb in Blocks && bh in bb.Heads
    {
      hide Inv, Fits, Views, View, Linked, IndexOf, HeadIndex, Room, Attached, BlkRoundUp, Sole;
      SoleRoom(s, bb, bh, BlkRoundUp(Bits, SUPER_END));
      GrownFirst(s, bb, bh, SUPER_END);
      SoleShape(s, bb, bh, 0, SkipWrite);
      SoleAt(bh, bb);
      var ret := BhBalloon(bh, SUPER_END);
      assert ret >= 0;
      SoleShape(s, bb, bh, SUPER_END, SkipWrite);
      SoleMember(bh, bb);
    }

    lemma SoleMember(bh: BufferHead, bb: BufferBlock)
      requires Valid() && |Model().blocks| == 1 && |Model().blocks[0].heads| == 1
      requires Model().blocks[0].ref == bb && Model().blocks[0].heads[0].ref == bh
      ensures bb in Blocks && bh in bb.Heads && bh.Block == bb
    {
      assert Model().blocks[0] == View(Blocks[0]);
      assert bb.Heads[0] == bh;
    }

    /** The block of the superblock is mapped, and has to be at byte zero. */
    method PinSuperblock(bh: BufferHead, ghost s: State, ghost bb: BufferBlock) returns (ok: bool)
      requires Valid() && Empty(s) && Inv(s)
      requires bh.Block == bb && bb in Blocks && bh in bb.Heads
      requires Model() == Sole(s, bb, bh, SUPER_END, SkipWrite)
      modifies this, bb, bh
      ensures Valid()
      ensures ok <==> s.tail == 0
      ensures if ok then Reserved(Model(), bh) else Model() == s
      ensures ok ==> |Model().blocks| == 1 && Model().blocks[0].off == 1152
    {
      hide Inv, Fits, Views, View, Linked, IndexOf, HeadIndex, MapUpto, Drop, BlkRoundUp, Reserved, Tell, Sole;
      SoleShape(s, bb, bh, SUPER_END, SkipWrite);
      MappedFirst(s, bb, bh, SUPER_END);
      RevokeUndoes(s, bb, bh, SUPER_END);
      if s.tail == 0 { FirstIsReserved(s, bb, bh); }
      ZeroProduct(s.tail, Pow2(Bits));
      SoleAt(bh, bb);
      var _ := MapBh(bh.Block);
      SoleMember(bh, bb);
      SoleAt(bh, bb);
      // A later start block leaves no room at byte zero.
      var pos := BhTell(bh, false);
      ok := pos == 0;
      if !ok {
        BDrop(bh, true);
      }
    }

    /** `ReserveSuperblock`, as it is called on a fresh manager. It succeeds
        exactly when the image starts at block zero, and otherwise takes
        everything back. */
    method ReserveSuperblock() returns (bh: BufferHead?)
      requires Valid() && Blocks == [] && LastMappedBlock == null
      requires Room(Model(), BlkRoundUp(Bits, SUPER_END))
      modifies this
      ensures Valid()
      ensures bh != null <==> old(TailBlkAddr) == 0
      ensures bh != null ==> Reserved(Model(), bh) && fresh(bh)
      ensures bh != null ==> |Model().blocks| == 1 && Model().blocks[0].off == 1152
      ensures bh == null ==> Model() == old(Model())
    {
      hide Inv, Fits, Views, View, Linked, IndexOf, HeadIndex, Room, TakenFrom, Attached, BlkRoundUp, Reserved, WithOp, NewBlock, Sole;
      ghost var s := Model();
      FreshIsEmpty();
      LessRoom(s, BlkRoundUp(Bits, SUPER_END));
      NoFill(s);
      ghost var base, at;
      bh, base, at := Balloc(META, 0, 0, 0);
      FirstBalloc(s, Bits, base, at);
      ghost var bb := bh.Block;
      FirstHead(s, bb, bh);
      SoleShape(s, bb, bh, 0, NoOp);
      SoleAt(bh, bb);
      SetOp(bh, SkipWrite);
      OpSet(s, bb, bh, 0, SkipWrite);
      GrowSuperblock(bh, s, bb);
      var ok := PinSuperblock(bh, s, bb);
      if !ok {
        bh := null;
      }
    }

    /** `WriteSuperBlock`: everything is mapped, the superblock with the number
        of blocks goes to where its head is, and the head is dropped. Without a
        head it goes to byte zero. */
    method WriteSuperBlock(info: SB.Info, sbBh: BufferHead?) returns (blocks: nat)
      requires Valid() && (sbBh != null ==> sbBh.Block in Blocks && sbBh in sbBh.Block.Heads)
      modifies this, Blocks, sbBh
      ensures Valid()
      ensures blocks == AddrOf(old(Model()), |old(Blocks)|) < TWO_32
      // In both cases a reader finds the values of `info` there, and as the number of
      // blocks the end of the image.
      ensures sbBh == null ==>
        var m := MapUpto(old(Model()), |old(Blocks)|);
        && Model() == m.(dev := Pwrite(m.dev, 0, SB.SuperImage(info, blocks)))
        && ReadsAt(Model().dev, 0, info, AddrOf(old(Model()), |old(Blocks)|))
      ensures sbBh != null ==>
        var i, k := IndexOf(old(Blocks), old(sbBh.Block)), HeadIndex(old(sbBh.Block.Heads), sbBh);
        var m := MapUpto(old(Model()), |old(Blocks)|);
        && IsHead(m, i, k)
        && Model() == Drop(Written(m, i, k, 0, SB.SuperImage(info, blocks)), i, k, false)
        && ReadsAt(Model().dev, Tell(m, i, k, false), info, AddrOf(old(Model()), |old(Blocks)|))
    {
      hide Inv, Fits, Views, View, Linked, IndexOf, HeadIndex, MapUpto, Drop, Tell, SB.SuperImage, ReadsAt, AddrOf;
      ghost var s := Model();
      ghost var i := if sbBh == null then 0 else IndexOf(Blocks, sbBh.Block);
      ghost var k := if sbBh == null then 0 else HeadIndex(sbBh.Block.Heads, sbBh);
      ValidFacts();
      MapUptoFacts(s, |Blocks|);
      MapUptoInv(s, |Blocks|);
      ghost var m := MapUpto(s, |Blocks|);
      TailBounded(m);
      blocks := MapBh(null);
      PutSuperBlock(SB.SuperImage(info, blocks), sbBh);
      ghost var pos := if sbBh == null then 0 else Tell(m, i, k, false);
      WrittenReads(m.dev, pos, info, blocks);
      if sbBh != null { DropDevice(Written(m, i, k, 0, SB.SuperImage(info, blocks)), i, k, false); }
    }

    /** The bytes go to the position of the head, which is dropped then, or else to
        byte zero. */
    method PutSuperBlock(buf: seq<byte>, sbBh: BufferHead?)
      requires Valid() && (sbBh != null ==> sbBh.Block in Blocks && sbBh in sbBh.Block.Heads)
      modifies this, if sbBh == null then {} else {sbBh.Block, sbBh}
      ensures Valid()
      ensures sbBh == null ==> Model() == old(Model()).(dev := Pwrite(old(Model()).dev, 0, buf))
      ensures sbBh != null ==>
        var i, k := IndexOf(old(Blocks), old(sbBh.Block)), HeadIndex(old(sbBh.Block.Heads), sbBh);
        && IsHead(old(Model()), i, k)
        && Model() == Drop(Written(old(Model()), i, k, 0, buf), i, k, false)
    {
      hide Inv, Fits, Views, View, Linked, IndexOf, HeadIndex, Drop, Tell;
      if sbBh == null {
        DevWrite(0, buf);
      } else {
        WriteHead(sbBh, 0, buf);
        BDrop(sbBh, false);
      }
    }

    /** What callers do with a head: they write behind its start. */
    method WriteHead(bh: BufferHead, skip: nat, data: seq<byte>)
      requires Valid() && bh.Block in Blocks && bh in bh.Block.Heads
      modifies this`Dev
      ensures Valid()
      ensures var i, k := IndexOf(Blocks, bh.Block), HeadIndex(bh.Block.Heads, bh);
        IsHead(old(Model()), i, k) && Model() == Written(old(Model()), i, k, skip, data)
    {
      hide Inv, Fits, Views, View, Linked, IndexOf, HeadIndex, Tell;
      var pos := BhTell(bh, false);
      DevWrite(pos + skip, data);
    }

    /** `ErofsDevWrite` with complete writes. */
    method DevWrite(pos: nat, data: seq<byte>)
      requires Valid()
      modifies this`Dev
      ensures Valid() && Model() == old(Model()).(dev := Pwrite(old(Model()).dev, pos, data))
    {
      hide Inv, Fits;
      ghost var s := Model();
      Dev := Pwrite(Dev, pos, data);
      assert Views() == s.blocks;
      InvSame(s, Model());
      FitsSame(s, Model());
    }
  }

  /** At byte `pos` a superblock with the values of `info` and this number of blocks. */
  ghost predicate ReadsAt(dev: seq<byte>, pos: nat, info: SB.Info, blocks: nat) {
    && pos + 1152 <= |dev| && SB.Describes(dev[pos..pos + 1152], info, blocks, 0)
    && LE.Get(dev[pos + 1060..pos + 1064]) == blocks
  }

  lemma WrittenReads(dev: seq<byte>, pos: nat, info: SB.Info, blocks: nat)
    requires blocks < TWO_32
    ensures ReadsAt(Pwrite(dev, pos, SB.SuperImage(info, blocks)), pos, info, blocks)
  {
    hide SB.Describes, SB.SuperImage, LE.Get;
    SB.WrittenDescribes(dev, pos, info, blocks);
  }

  lemma DropDevice(s: State, i: nat, k: nat, revoke: bool)
    requires IsHead(s, i, k)
    ensures Drop(s, i, k, revoke).dev == s.dev
  {
  }

  /** The block count and the checksum end to end: from any state in which the
      superblock is reserved, the written image starts with the superblock, its
      block count is where the finished image ends, and after the checksum step
      it verifies exactly when a block has at least 2048 bytes. */
  lemma SuperblockEndToEnd(s: State, sup: BufferHead, info: SB.Info)
    requires Inv(s) && Fits(s) && Reserved(s, sup)
    ensures var m := MapUpto(s, |s.blocks|);
      && IsHead(m, 0, 0) && Tell(m, 0, 0, false) == 0
      && m.tail < TWO_32 && m.tail == s.tail + Pending(s.bits, s.blocks[s.cut..])
      && ValidBits(s.bits)
      && var image := SB.Enabled(Pwrite(m.dev, 0, SB.SuperImage(info, m.tail)), s.bits);
      && |image| >= 1152
      && SB.Describes(image[..1152], info, m.tail, 0) && LE.Get(image[1060..1064]) == m.tail
      && (SB.Verifies(image, s.bits) <==> Pow2(s.bits) >= 2048)
  {
    hide Inv, Fits, Reserved, MapUpto, Tell, SB.Enabled, SB.SuperImage, SB.Verifies, SB.Describes, LE.Get;
    InvCut(s);
    TailAtEnd(s, sup);
    FI.SuperblockReadable(MapUpto(s, |s.blocks|).dev, s.bits, info, MapUpto(s, |s.blocks|).tail);
  }

  /** Mapping everything leaves the reserved head at byte zero, and the tail is the
      end of the image. */
  lemma TailAtEnd(s: State, sup: BufferHead)
    requires Inv(s) && Fits(s) && Reserved(s, sup)
    ensures var m := MapUpto(s, |s.blocks|);
      && IsHead(m, 0, 0) && Tell(m, 0, 0, false) == 0
      && s.cut <= |s.blocks| && m.tail < TWO_32 && m.tail == s.tail + Pending(s.bits, s.blocks[s.cut..])
  {
    hide Inv, Fits;
    InvCut(s);
    MapUptoFacts(s, |s.blocks|);
    MapUptoInv(s, |s.blocks|);
    MappingConserves(s, |s.blocks|);
    TailBounded(MapUpto(s, |s.blocks|));
  }

  lemma SoleShape(s: State, bb: BufferBlock, bh: BufferHead, off: nat, op: HeadOp)
    ensures var b := Sole(s, bb, bh, off, op).blocks;
      |b| == 1 && |b[0].heads| == 1 && b[0].ref == bb && b[0].heads[0].ref == bh && b[0].addr == NULL_ADDR
    ensures Sole(s, bb, bh, off, op).bits == s.bits
  {
  }

  lemma ZeroProduct(x: nat, d: nat)
    requires d > 0
    ensures x * d == 0 <==> x == 0
  {
    MulBound(x, d);
  }

  lemma LessRoom(s: State, n: nat)
    requires Inv(s) && Room(s, n)
    ensures Room(s, BlkRoundUp(s.bits, 0))
  {
    BlkRoundUpZero(s.bits);
  }

  /** The first request of size zero takes a new block. */
  lemma FirstBalloc(s: State, bits: nat, base: State, at: nat)
    requires Empty(s) && s.bits == bits && TakenFrom(s, RequestFor(bits, META, 0, 0, 0), base, at)
    ensures at == 0 && |base.blocks| == 1 && base == NewBlock(s, base.blocks[0].ref, META)
  {
  }

  lemma NoFill(s: State)
    ensures FreshFill(s, RequestFor(s.bits, META, 0, 0, 0)) == 0
  {
    ModUnique(0, 0, 0, BlkSiz(s));
  }

  lemma {:induction false} KeptSnoc(hs: seq<HeadV>, m: nat)
    requires m < |hs|
    ensures Kept(hs[..m + 1]) == Kept(hs[..m]) + (if hs[m].op == DropDirectly then [] else [hs[m]])
    decreases hs
  {
    if m == 0 {
      assert hs[..1] == [hs[0]] && hs[..0] == [];
      assert Kept([hs[0]]) == if hs[0].op == DropDirectly then Kept([]) else [hs[0]] + Kept([]);
    } else {
      assert hs[..m][1..] == hs[1..][..m - 1] && hs[..m + 1][1..] == hs[1..][..m];
      KeptSnoc(hs[1..], m - 1);
    }
  }

  /** One round of the loop over the heads: `list` is what is linked then. */
  lemma KeptStep(hs: seq<HeadV>, m: nat, list: seq<HeadV>)
    requires m < |hs| && list == Kept(hs[..m]) + hs[m..]
    ensures var k := |Kept(hs[..m])|;
      && k < |list| && list[k] == hs[m]
      && (hs[m].op != DropDirectly ==> list == Kept(hs[..m + 1]) + hs[m + 1..] && |Kept(hs[..m + 1])| == k + 1)
      && (hs[m].op == DropDirectly ==>
            list[..k] + list[k + 1..] == Kept(hs[..m + 1]) + hs[m + 1..] && |Kept(hs[..m + 1])| == k)
  {
    KeptSnoc(hs, m);
  }

  lemma BeyondBusy(hs: seq<HeadV>, m: nat)
    requires m < |hs| && FirstBusy(hs) >= m
    ensures hs[m].op == Busy ==> FirstBusy(hs) == m
    ensures hs[m].op != Busy ==> FirstBusy(hs) >= m + 1
  {
  }

  lemma RetireIs(s: State, i: nat)
    requires i < |s.blocks|
    ensures var b := s.blocks[i];
      var pad := Padding(s.bits, b.off);
      var end := EndAddr(s.bits, b) * Pow2(s.bits);
      && end - pad >= 0
      && Retire(s, i) ==
         Free(s.(meta := if b.typ != DATA then U32(s.meta + Size(s.bits, b)) else s.meta,
                 dev := if pad == 0 then s.dev else Pwrite(s.dev, end - pad, Zeros(pad))), i)
  {
    hide BlkRoundUp, Padding, Free, Pwrite, U32, Zeros, Pow2;
    PaddingEnds(s.bits, s.blocks[i].off, s.blocks[i].addr);
  }

  lemma PaddingIs(bits: nat, off: nat)
    ensures Padding(bits, off) == (if off % Pow2(bits) == 0 then 0 else Pow2(bits) - off % Pow2(bits))
    ensures 0 <= off % Pow2(bits) < Pow2(bits)
  {
    DivMod(off, Pow2(bits));
  }

  lemma CanTryWith(s: State, q: Request, i: nat, h: Incoming)
    requires CanRequest(s, i, NoHead, q.size, q.align, q.req + q.inl) && FreshHead(s, h)
    requires Inv(s) && ValidRequest(s, q)
    ensures CanRequest(s, i, h, q.size, q.align, q.req + q.inl) && s.blocks[i].off < TWO_64
  {
  }

  lemma BestFitTakes(s: State, q: Request, i: nat)
    requires BestFit(s, q, i)
    ensures i < |s.blocks| && Try(s, q, i) >= 0
  {
  }

  /** Where the new-block arm of `Balloc` puts a block. */
  function InsertAt(s: State, typ: int): nat { if typ == DATA then s.cut else |s.blocks| }

  /** `base` is `s`, and its block `at` is the best fit for the request; or else
      no block of `s` is eligible, or none is looked for, and `base` is `s` with
      a new block at position `at`. */
  ghost predicate TakenFrom(s: State, q: Request, base: State, at: nat) {
    && at < |base.blocks| && s.cut <= |s.blocks|
    && (|| (base == s && BestFit(s, q, at))
        || (&& base == NewBlock(s, base.blocks[at].ref, q.typ) && at == InsertAt(s, q.typ)
            && FreshBlock(s, base.blocks[at].ref)
            && (|| FreshFill(s, q) == 0 || q.align == Pow2(s.bits)
                || forall i :: 0 <= i < |s.blocks| ==> !Eligible(s, q, i))))
  }

  lemma NewBlockReady(s: State, q: Request, bb: BufferBlock, n: nat)
    requires Inv(s) && FreshBlock(s, bb) && Room(s, n) && WellFormed(s, q)
    ensures var t, p := NewBlock(s, bb, q.typ), InsertAt(s, q.typ);
      && p < |t.blocks| && t.blocks[p].ref == bb && Try(t, q, p) >= 0 && Room(t, n) && WellFormed(t, q)
  {
    hide Inv, Try, NewBlock;
    RoomFits(s, n);
    RequestIsValid(s, q);
    NewBlockTakesRequest(s, bb, q);
    NewBlockRoom(s, bb, q.typ, n);
    NewBlockBits(s, bb, q.typ);
  }

  lemma NewBlockBits(s: State, bb: BufferBlock, typ: int)
    requires s.cut <= |s.blocks|
    ensures NewBlock(s, bb, typ).bits == s.bits
  {
  }

  lemma RoomFits(s: State, n: nat)
    requires Room(s, n)
    ensures Fits(s)
  {
  }

  /** `GetAlignSize`: the alignment and the block type of a request. */
  function GetAlignSize(bits: nat, bufType: int): (int, int) {
    if bufType == DATA then (Pow2(bits), DATA)
    else if bufType == INODE then (32, META)
    else if bufType == DIRA then (Pow2(bits), META)
    else if bufType == XATTR then (4, META)
    else if bufType == DEVT then (64 + 4 + 4 + 56, META)
    else if bufType == META then (1, META)
    else (-EINVAL, 0)
  }

  /** Every alignment in use divides every block size in use. */
  lemma AlignSizesDivide(bits: nat, bufType: int)
    requires ValidBits(bits)
    ensures var (a, t) := GetAlignSize(bits, bufType);
      if DATA <= bufType <= DEVT then
        a > 0 && Divides(a, Pow2(bits)) && (t == DATA || t == META)
      else a == -EINVAL
  {
    BlockSizes(bits);
  }

  /** Where `Balloc` puts a head of each type in the image, in every state of every run
      after its attach in which its block is mapped: inodes at multiples of 32 bytes,
      extended attributes of 4, device slots of 128, data and directories at the start
      of a block; and which types of request share blocks. */
  lemma BallocAligns(s: State, bufType: int, at: nat, h: Incoming, size: nat, extra: nat, steps: seq<Step>, j: nat, l: nat)
    requires Inv(s) && Fits(s) && DATA <= bufType <= DEVT && h.Fresh? && GetAlignSize(s.bits, bufType).0 >= 0
    requires StepOk(s, Attach(at, h, size, GetAlignSize(s.bits, bufType).0, extra))
    requires TryAttach(s, at, size, GetAlignSize(s.bits, bufType).0, extra) >= 0
    requires var t := Attached(s, at, h, size, GetAlignSize(s.bits, bufType).0, extra);
      && RunOk(t, steps) && IsHead(Run(t, steps), j, l)
      && Run(t, steps).blocks[j].heads[l].ref == h.ref && Mapped(Run(t, steps).blocks[j])
    requires forall x :: x in steps ==> !Issues(x, h.ref)
    ensures var t := Attached(s, at, h, size, GetAlignSize(s.bits, bufType).0, extra);
      var pos := Tell(Run(t, steps), j, l, false);
      && (bufType == INODE ==> pos % 32 == 0)
      && (bufType == XATTR ==> pos % 4 == 0)
      && (bufType == DEVT ==> pos % 128 == 0)
      && (bufType == DATA || bufType == DIRA ==> pos % Pow2(s.bits) == 0)
    ensures GetAlignSize(s.bits, bufType).1 == if bufType == DATA then DATA else META
  {
    hide Inv, Fits, StepOk, Run, RunOk, Tell, TryAttach, Attached;
    var st := Attach(at, h, size, GetAlignSize(s.bits, bufType).0, extra);
    HeadsAreAligned(s, st, steps, j, l);
  }

  function RequestFor(bits: nat, bufType: int, size: nat, req: nat, inl: nat): Request {
    var (a, t) := GetAlignSize(bits, bufType);
    Request(t, size, req, inl, if a < 0 then 0 else a)
  }

  lemma {:induction false} IndexAfterInsert(bs: seq<BufferBlock>, bb: BufferBlock, p: nat, last: BufferBlock?)
    requires p <= |bs| && (last != null ==> last in bs && IndexOf(bs, last) < p)
    ensures var cs := bs[..p] + [bb] + bs[p..];
      last != null && last != bb ==> last in cs && IndexOf(cs, last) == IndexOf(bs, last)
  {
    var cs := bs[..p] + [bb] + bs[p..];
    if last != null && last != bb {
      var i := IndexOf(bs, last);
      assert cs[i] == last;
      assert forall j :: 0 <= j < i ==> cs[j] == bs[j];
    }
  }

  lemma IndexInserted(bs: seq<BufferBlock>, bb: BufferBlock, p: nat)
    requires p <= |bs| && bb !in bs
    ensures IndexOf(bs[..p] + [bb] + bs[p..], bb) == p
  {
    var cs := bs[..p] + [bb] + bs[p..];
    assert cs[p] == bb;
    assert forall j :: 0 <= j < p ==> cs[j] == bs[j];
  }

  lemma CanTry(s: State, q: Request, i: nat)
    requires Inv(s) && ValidRequest(s, q) && i < |s.blocks|
    ensures CanRequest(s, i, NoHead, q.size, q.align, q.req + q.inl)
  {
    BlockSizes(s.bits);
    InBlockRounding(s.bits, s.blocks[i].off, q.align);
    ExtentEndIsRoundUp(s.bits, s.blocks[i].off);
  }

  lemma PositiveTotal(s: State, q: Request)
    requires 0 < FreshFill(s, q)
    ensures 0 < Total(q)
  {
    if Total(q) == 0 { ModUnique(0, 0, 0, BlkSiz(s)); }
  }

  /** The boundary test as the source computes it. */
  function OobTest(bits: nat, boff: nat, incr: nat, alignsize: nat, extrasize: nat): (r: int)
    ensures r == Oob(bits, boff, incr, alignsize, extrasize)
  {
    var prevBlockOffset := Mask(U64(boff - 1), bits) + 1;
    Cmpsgn(RoundUp(prevBlockOffset, alignsize) + incr + extrasize, Pow2(bits))
  }

  lemma ReturnIsPositive(s: State, i: nat, incr: nat, align: nat, extra: nat)
    requires i < |s.blocks|
    ensures LastFill(s.bits, RoundUp(s.blocks[i].off, align) + incr) > 0
  {
  }

  function HeadIndex(hs: seq<BufferHead>, bh: BufferHead): (i: nat)
    ensures i <= |hs|
    ensures i < |hs| ==> hs[i] == bh
    ensures bh in hs <==> i < |hs|
  {
    if hs == [] || hs[0] == bh then 0 else 1 + HeadIndex(hs[1..], bh)
  }

  /** A linked head, and the one behind it. */
  lemma HeadAt(bb: BufferBlock, bh: BufferHead)
    requires bh in bb.Heads
    ensures var k := HeadIndex(bb.Heads, bh);
      && k < |bb.Heads| == |View(bb).heads| && View(bb).heads[k].off == bh.Off
      && (k + 1 < |bb.Heads| ==> View(bb).heads[k + 1].off == bb.Heads[k + 1].Off)
  {
  }

  /** After the map the address is below the 32-bit limit. */
  lemma MapAddress(s: State, i: nat)
    requires Inv(s) && Fits(s) && i < |s.blocks| && i <= s.cut
    ensures EndAddr(s.bits, MapBlock(s, i).blocks[i]) < TWO_32
    ensures s.tail < NULL_ADDR
  {
    MapEither(s, i);
    AddressesFit(MapBlock(s, i), i);
  }

  lemma MapBlockIs(s: State, i: nat)
    requires i < |s.blocks|
    ensures var u := if Mapped(s.blocks[i]) then s else UpdateMapped(Addressed(s, i), i);
      && |u.blocks| == |s.blocks|
      && MapBlock(s, i) == if EndAddr(s.bits, u.blocks[i]) > u.tail then u.(tail := EndAddr(s.bits, u.blocks[i])) else u
  {
  }

  lemma MapMore(s: State, j: nat)
    requires s.cut <= j && s.cut < |s.blocks| && !Mapped(s.blocks[s.cut])
    ensures MapUpto(s, j) == MapUpto(MapBlock(s, s.cut), j)
  {
  }

  lemma MapDone(s: State, j: nat)
    requires s.cut > j || s.cut >= |s.blocks|
    ensures MapUpto(s, j) == s
  {
  }

  lemma EndBehindPadding(bits: nat, bb: BufferBlock)
    ensures EndAddr(bits, View(bb)) * Pow2(bits) - Padding(bits, bb.Off) >= 0
  {
    hide Padding, BlkRoundUp, Pow2;
    PaddingEnds(bits, bb.Off, bb.BlkAddr);
  }

  lemma EndOfBlock(bits: nat, bb: BufferBlock)
    ensures EndAddr(bits, View(bb)) == bb.BlkAddr + BlkRoundUp(bits, bb.Off)
  {
  }

  /** One round of the outer loop of `ErofsBflush`. */
  lemma FlushRoundIs(s: State, i: nat, stop: BufferBlock?)
    requires Inv(s) && Fits(s) && i < |s.blocks| && i <= s.cut
    ensures var hs := s.blocks[i].heads;
      var f := Visited(MapBlock(s, i), i);
      var r := Retire(f, i);
      && i < f.cut <= |f.blocks| == |s.blocks| && i <= r.cut <= |r.blocks| == |s.blocks| - 1
      && FlushFrom(s, i, stop) ==
           if s.blocks[i].ref == stop then Flushed(s, 0)
           else if FirstBusy(hs) < |hs| then Flushed(f, -EBUSY)
           else if Skips(hs) then FlushFrom(f, i + 1, stop)
           else FlushFrom(r, i, stop)
  {
    hide Inv, Fits, MapBlock, Visited, Retire, Skips, FirstBusy;
    VisitStep(s, i);
    var f := Visited(MapBlock(s, i), i);
    InvCut(f);
    RetireStep(f, i);
  }

  lemma FlushEnds(s: State, i: nat, stop: BufferBlock?)
    requires i >= |s.blocks|
    ensures FlushFrom(s, i, stop) == Flushed(s, 0)
  {
  }

  /** The test in the 32 bits of the source. */
  lemma RevokesIff(s: State, i: nat, revoke: bool)
    requires Inv(s) && Fits(s) && i < |s.blocks|
    ensures Revokes(s, i, revoke) <==>
      revoke && Mapped(s.blocks[i]) && s.tail == U32(s.blocks[i].addr + U32(BlkRoundUp(s.bits, s.blocks[i].off)))
  {
    hide Inv, Fits, BlkRoundUp, U32;
    MappedInPrefix(s, i);
    if Mapped(s.blocks[i]) { AddressesFit(s, i); }
  }

  lemma DropIs(s: State, i: nat, k: nat, revoke: bool)
    requires IsHead(s, i, k)
    ensures var b := s.blocks[i];
      var m := s.(blocks := s.blocks[i := WithoutHead(b, k)]);
      var r := Revokes(s, i, revoke);
      Drop(s, i, k, revoke) ==
        if |b.heads| > 1 then m
        else Free(m, i).(meta := if !r && b.typ != DATA then U32(s.meta + BlkRoundUp(s.bits, b.off)) else s.meta,
                         tail := if r then b.addr else s.tail)
  {
  }

  lemma FreeMeta(s: State, i: nat, m: nat)
    requires i < |s.blocks|
    ensures Free(s.(meta := m), i) == Free(s, i).(meta := m)
    ensures Free(s, i).tail == s.tail && Free(s, i).meta == s.meta
  {
  }

  lemma IndexUnique(bs: seq<BufferBlock>, j: nat)
    requires j < |bs| && forall x, y :: 0 <= x < y < |bs| ==> bs[x] != bs[y]
    ensures IndexOf(bs, bs[j]) == j
  {
  }

  /** Positions in a list without its element `i`. */
  lemma IndexAfterRemove(bs: seq<BufferBlock>, i: nat)
    requires i < |bs| && forall x, y :: 0 <= x < y < |bs| ==> bs[x] != bs[y]
    ensures var cs := bs[..i] + bs[i + 1..];
      && bs[i] !in cs
      && forall j :: 0 <= j < |bs| && j != i ==> bs[j] in cs && IndexOf(cs, bs[j]) == if j < i then j else j - 1
  {
    var cs := bs[..i] + bs[i + 1..];
    forall j | 0 <= j < |bs| && j != i ensures bs[j] in cs && IndexOf(cs, bs[j]) == if j < i then j else j - 1 {
      var j' := if j < i then j else j - 1;
      assert cs[j'] == bs[j];
    }
  }

  /** Where the mapped prefix ends after a removal. */
  lemma CutAfterRemove(bs: seq<BufferBlock>, i: nat, last: BufferBlock?)
    requires i < |bs| && forall x, y :: 0 <= x < y < |bs| ==> bs[x] != bs[y]
    requires last != null ==> last in bs
    ensures var cs := bs[..i] + bs[i + 1..];
      var last' := if last != bs[i] then last else if i == 0 then null else bs[i - 1];
      var cut := if last == null then 0 else IndexOf(bs, last) + 1;
      && (last' != null ==> last' in cs)
      && (if last' == null then 0 else IndexOf(cs, last') + 1) == (if i < cut then cut - 1 else cut)
  {
    IndexAfterRemove(bs, i);
    IndexUnique(bs, i);
    if i > 0 { IndexUnique(bs, i - 1); }
  }

  /** A linked head occurs once in its list. */
  lemma HeadOnce(s: State, i: nat, k: nat)
    requires Inv(s) && IsHead(s, i, k)
    ensures forall l :: 0 <= l < |s.blocks[i].heads| && l != k ==> s.blocks[i].heads[l].ref != s.blocks[i].heads[k].ref
  {
    forall l: nat | l < |s.blocks[i].heads| && l != k
      ensures s.blocks[i].heads[l].ref != s.blocks[i].heads[k].ref
    {
      assert IsHead(s, i, l);
    }
  }

  lemma WithoutHeadInv(s: State, i: nat, k: nat)
    requires Inv(s) && Fits(s) && IsHead(s, i, k)
    ensures var t := s.(blocks := s.blocks[i := WithoutHead(s.blocks[i], k)]); Inv(t) && Fits(t)
  {
    hide Inv, Fits, StrictlyOrdered;
    var hs := WithoutHead(s.blocks[i], k).heads;
    assert s.blocks[i].(heads := hs) == WithoutHead(s.blocks[i], k);
    ThinnedInv(s, i, hs, seq(|hs|, l requires 0 <= l < |hs| => if l < k then l else l + 1));
    FitsSame(s, s.(blocks := s.blocks[i := WithoutHead(s.blocks[i], k)]));
  }

  /** The count of metadata blocks plays no part in the invariant. */
  lemma MetaIrrelevant(s: State, t: State)
    requires t == s.(meta := t.meta)
    ensures Inv(s) ==> Inv(t)
    ensures Fits(s) ==> Fits(t)
  {
    if Inv(s) { InvSame(s, t); }
  }

  lemma MappedInPrefix(s: State, i: nat)
    requires Inv(s) && i < |s.blocks|
    ensures Mapped(s.blocks[i]) <==> i < s.cut
    ensures s.blocks[i].typ == DATA || s.blocks[i].typ == META
    ensures forall k :: k in s.buckets <==> IsKey(k)
  {
  }

  /** End addresses of mapped blocks fit in 32 bits. */
  lemma AddressesFit(s: State, i: nat)
    requires Inv(s) && Fits(s) && i < s.cut
    ensures s.blocks[i].addr + Size(s.bits, s.blocks[i]) < TWO_32
    ensures U32(s.blocks[i].addr + U32(Size(s.bits, s.blocks[i]))) == s.blocks[i].addr + Size(s.bits, s.blocks[i])
  {
    BlkRoundUpZero(s.bits);
  }

  lemma PlacedFits(s: State, i: nat, h: Incoming, incr: nat, align: nat, extra: nat)
    requires i < |s.blocks| && Fits(Attached(s, i, h, incr, align, extra)) && TouchesTail(s, i)
    requires Oob(s.bits, s.blocks[i].off, incr, align, extra) >= 0
    ensures var end := Placed(s, i, h, incr, align, extra).tail;
      end < TWO_32
      && end == U32(s.blocks[i].addr + U32(BlkRoundUp(s.bits, RoundUp(s.blocks[i].off, align) + incr)))
  {
    hide RoundUp, Oob, BlkRoundUp, UpdateMapped;
    UpdateMappedRest(Placed(s, i, h, incr, align, extra), i);
  }
}
