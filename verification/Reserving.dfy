/** The states `ReserveSuperblock` goes through on a fresh buffer manager. */
module Reserving {
  import opened Rounding
  import opened Objects
  import opened Layout
  import opened LayoutInv
  import opened Mapping
  import opened Flushing
  import opened Placement
  import opened Runs

  /** A manager whose only, unmapped block holds the superblock head. */
  function Sole(s: State, bb: BufferBlock, bh: BufferHead, off: nat, op: HeadOp): State {
    s.(blocks := [BlockV(bb, NULL_ADDR, META, off, [HeadV(bh, 0, op)])])
  }

  ghost predicate Empty(s: State) { s.blocks == [] && s.cut == 0 && ValidBits(s.bits) }

  lemma FirstHead(s: State, bb: BufferBlock, bh: BufferHead)
    requires Empty(s)
    ensures NewBlock(s, bb, META).blocks == [BlockV(bb, NULL_ADDR, META, 0, [])]
    ensures Attached(NewBlock(s, bb, META), 0, Fresh(bh, NoOp), 0, 1, 0) == Sole(s, bb, bh, 0, NoOp)
  {
    var t := NewBlock(s, bb, META);
    assert RoundUp(0, 1) == 0;
    assert Grown(t.blocks[0], Fresh(bh, NoOp), 0, 1) == Sole(s, bb, bh, 0, NoOp).blocks[0];
    assert Placed(t, 0, Fresh(bh, NoOp), 0, 1, 0).blocks == Sole(s, bb, bh, 0, NoOp).blocks;
  }

  lemma OpSet(s: State, bb: BufferBlock, bh: BufferHead, off: nat, op: HeadOp)
    ensures IsHead(Sole(s, bb, bh, off, NoOp), 0, 0)
    ensures WithOp(Sole(s, bb, bh, off, NoOp), 0, 0, op) == Sole(s, bb, bh, off, op)
  {
    var t := WithOp(Sole(s, bb, bh, off, NoOp), 0, 0, op);
    assert t.blocks[0].heads == [HeadV(bh, 0, op)];
    assert t.blocks == Sole(s, bb, bh, off, op).blocks;
  }

  lemma GrownFirst(s: State, bb: BufferBlock, bh: BufferHead, n: nat)
    requires Empty(s)
    ensures TryAttach(Sole(s, bb, bh, 0, SkipWrite), 0, n, 1, 0) >= 0
    ensures Attached(Sole(s, bb, bh, 0, SkipWrite), 0, NoHead, n, 1, 0) == Sole(s, bb, bh, n, SkipWrite)
  {
    assert RoundUp(0, 1) == 0;
  }

  lemma SoleRoom(s: State, bb: BufferBlock, bh: BufferHead, n: nat)
    requires Empty(s) && Room(s, n)
    ensures Room(Sole(s, bb, bh, 0, SkipWrite), n)
  {
    BlkRoundUpZero(s.bits);
    var t := Sole(s, bb, bh, 0, SkipWrite);
    assert t.blocks[t.cut..] == t.blocks;
    PendingOne(s.bits, t.blocks[0]);
  }

  /** In a manager without blocks all buckets are empty. */
  lemma EmptyBuckets(s: State)
    requires Inv(s) && Empty(s)
    ensures forall k :: k in s.buckets ==> s.buckets[k] == []
  {
    forall k | k in s.buckets ensures s.buckets[k] == [] {
      FirstIn(s.buckets[k]);
    }
  }

  lemma FirstIn(q: seq<BufferBlock>)
    ensures q == [] || q[0] in q
  {
  }

  lemma UnlinkOnly(q: seq<BufferBlock>, r: BufferBlock)
    requires q == [] || q == [r]
    ensures Unlink(q, r) == []
  {
    if q == [r] { assert q[1..] == []; }
  }

  /** Mapping the block puts the superblock at the tail address; dropping its
      head with revocation undoes everything since the manager was fresh. */
  lemma MappedFirst(s: State, bb: BufferBlock, bh: BufferHead, off: nat)
    requires Inv(s) && Empty(s) && off > 0
    requires Inv(Sole(s, bb, bh, off, SkipWrite)) && Fits(Sole(s, bb, bh, off, SkipWrite))
    ensures var u := MapUpto(Sole(s, bb, bh, off, SkipWrite), 0);
      && u.cut == 1 && u.bits == s.bits
      && u.blocks == [BlockV(bb, s.tail, META, off, [HeadV(bh, 0, SkipWrite)])]
      && Tell(u, 0, 0, false) == s.tail * BlkSiz(s)
      && u.tail == EndAddr(u.bits, u.blocks[0])
      && u.meta == s.meta && u.dev == s.dev
  {
    var t := Sole(s, bb, bh, off, SkipWrite);
    MapUptoFacts(t, 0);
    AddrOfCut(t);
    MapUptoInv(t, 0);
    var u := MapUpto(t, 0);
    assert u.blocks[0].addr == s.tail;
    assert t.blocks[0..1] == [t.blocks[0]];
    PendingOne(s.bits, t.blocks[0]);
  }

  lemma MappedFirstBuckets(s: State, bb: BufferBlock, bh: BufferHead, off: nat)
    requires Inv(s) && Empty(s)
    requires Inv(Sole(s, bb, bh, off, SkipWrite)) && Fits(Sole(s, bb, bh, off, SkipWrite))
    ensures UnlinkAll(MapUpto(Sole(s, bb, bh, off, SkipWrite), 0).buckets, bb) == s.buckets
  {
    var t := Sole(s, bb, bh, off, SkipWrite);
    EmptyBuckets(s);
    MapBlockValue(t);
    MapBlockFacts(t);
    var m := MapBlock(t, 0);
    assert MapUpto(t, 0) == MapUpto(m, 0) == m;
    var a := Addressed(t, 0);
    KeyIsKey(s.bits, a.blocks[0]);
    assert forall k :: k in m.buckets <==> k in s.buckets;
    forall k | k in m.buckets ensures Unlink(m.buckets[k], bb) == s.buckets[k] {
      assert UnlinkAll(s.buckets, bb)[k] == Unlink([], bb) == [];
      UnlinkOnly(m.buckets[k], bb);
    }
  }

  lemma RevokeUndoes(s: State, bb: BufferBlock, bh: BufferHead, off: nat)
    requires Inv(s) && Empty(s) && off > 0
    requires Inv(Sole(s, bb, bh, off, SkipWrite)) && Fits(Sole(s, bb, bh, off, SkipWrite))
    ensures var u := MapUpto(Sole(s, bb, bh, off, SkipWrite), 0);
      IsHead(u, 0, 0) && Drop(u, 0, 0, true) == s
  {
    MappedFirst(s, bb, bh, off);
    MappedFirstBuckets(s, bb, bh, off);
  }

  lemma FirstIsReserved(s: State, bb: BufferBlock, bh: BufferHead)
    requires Inv(s) && Empty(s) && s.tail == 0
    requires Inv(Sole(s, bb, bh, SUPER_END, SkipWrite)) && Fits(Sole(s, bb, bh, SUPER_END, SkipWrite))
    ensures Reserved(MapUpto(Sole(s, bb, bh, SUPER_END, SkipWrite), 0), bh)
  {
    MappedFirst(s, bb, bh, SUPER_END);
  }
}
