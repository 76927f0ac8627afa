/** `MapBh` over a whole list: consecutive addresses, no gap, no panic. */
module Mapping {
  import opened Rounding
  import opened Objects
  import opened Layout
  import opened LayoutInv

  lemma {:induction false} PendingSplit(bits: nat, a: seq<BlockV>, b: seq<BlockV>)
    ensures Pending(bits, a + b) == Pending(bits, a) + Pending(bits, b)
  {
    if a == [] {
      assert a + b == b;
    } else {
      assert (a + b)[1..] == a[1..] + b;
      PendingSplit(bits, a[1..], b);
    }
  }

  lemma PendingOne(bits: nat, b: BlockV)
    ensures Pending(bits, [b]) == Size(bits, b)
  {
    assert [b][1..] == [];
  }

  lemma {:induction false} PendingSame(bits: nat, a: seq<BlockV>, b: seq<BlockV>)
    requires |a| == |b| && forall i :: 0 <= i < |a| ==> a[i].off == b[i].off
    ensures Pending(bits, a) == Pending(bits, b)
  {
    if a != [] { PendingSame(bits, a[1..], b[1..]); }
  }

  /** A new block needs nothing yet. */
  lemma NewBlockPending(s: State, ref: BufferBlock, typ: int)
    requires s.cut <= |s.blocks|
    ensures var t := NewBlock(s, ref, typ);
      t.cut <= |t.blocks| && Pending(t.bits, t.blocks[t.cut..]) == Pending(s.bits, s.blocks[s.cut..])
  {
    var t := NewBlock(s, ref, typ);
    var nb := BlockV(ref, NULL_ADDR, typ, 0, []);
    PendingOne(s.bits, nb);
    BlkRoundUpZero(s.bits);
    if typ == DATA {
      assert t.blocks[t.cut..] == [nb] + s.blocks[s.cut..];
      PendingSplit(s.bits, [nb], s.blocks[s.cut..]);
    } else {
      assert t.blocks[t.cut..] == s.blocks[s.cut..] + [nb];
      PendingSplit(s.bits, s.blocks[s.cut..], [nb]);
    }
  }

  lemma NewBlockRoom(s: State, ref: BufferBlock, typ: int, n: nat)
    requires Room(s, n)
    ensures Room(NewBlock(s, ref, typ), n)
  {
    NewBlockPending(s, ref, typ);
    NewBlockBlocks(s, ref, typ);
  }

  lemma NewBlockFits(s: State, ref: BufferBlock, typ: int)
    requires Fits(s)
    ensures Fits(NewBlock(s, ref, typ))
  {
    NewBlockRoom(s, ref, typ, 0);
  }

  /** Freeing a block takes its size out of the pending part if it was in there. */
  lemma FreePending(s: State, i: nat)
    requires s.cut <= |s.blocks| && i < |s.blocks|
    ensures var t := Free(s, i);
      && t.cut <= |t.blocks| && t.bits == s.bits && t.tail == s.tail
      && Pending(t.bits, t.blocks[t.cut..])
         == Pending(s.bits, s.blocks[s.cut..]) - if i < s.cut then 0 else Size(s.bits, s.blocks[i])
  {
    hide Pending, Size, UnlinkAll;
    var t := Free(s, i);
    if i < s.cut {
      assert t.blocks[t.cut..] == s.blocks[s.cut..];
    } else {
      assert t.blocks[t.cut..] == s.blocks[s.cut..i] + s.blocks[i + 1..];
      assert s.blocks[s.cut..] == s.blocks[s.cut..i] + ([s.blocks[i]] + s.blocks[i + 1..]);
      PendingSplit(s.bits, s.blocks[s.cut..i], s.blocks[i + 1..]);
      PendingSplit(s.bits, s.blocks[s.cut..i], [s.blocks[i]] + s.blocks[i + 1..]);
      PendingSplit(s.bits, [s.blocks[i]], s.blocks[i + 1..]);
      PendingOne(s.bits, s.blocks[i]);
    }
  }

  lemma FreeFits(s: State, i: nat)
    requires Fits(s) && i < |s.blocks|
    ensures Fits(Free(s, i))
  {
    hide Pending;
    FreeShift(s, i);
    FreePending(s, i);
  }

  lemma PendingHead(s: State)
    requires s.cut < |s.blocks|
    ensures Pending(s.bits, s.blocks[s.cut..])
         == Size(s.bits, s.blocks[s.cut]) + Pending(s.bits, s.blocks[s.cut + 1..])
  {
    assert s.blocks[s.cut..][1..] == s.blocks[s.cut + 1..];
  }

  /** Mapping one block moves its size from the pending part into the tail. */
  lemma MapBlockFacts(s: State)
    requires s.cut < |s.blocks| && !Mapped(s.blocks[s.cut])
    ensures var t, b := MapBlock(s, s.cut), s.blocks[s.cut];
      && t.blocks == s.blocks[s.cut := b.(addr := s.tail)] && t.cut == s.cut + 1
      && t.tail == s.tail + Size(s.bits, b)
      && t.bits == s.bits && t.meta == s.meta && t.dev == s.dev
  {
    MapBlockValue(s);
    UpdateMappedRest(Addressed(s, s.cut), s.cut);
  }

  lemma MapBlockFits(s: State)
    requires Prefix(s) && Fits(s) && s.cut < |s.blocks|
    ensures Fits(MapBlock(s, s.cut))
  {
    MapBlockFacts(s);
    PendingHead(s);
    var t := MapBlock(s, s.cut);
    assert t.blocks[t.cut..] == s.blocks[s.cut + 1..];
    assert forall i :: 0 <= i < t.cut ==> t.blocks[i].addr == if i == s.cut then s.tail else s.blocks[i].addr;
  }

  /** Where the loop of `MapBh` ends. */
  function CutAfter(s: State, j: nat): nat {
    if j < s.cut then s.cut else if j < |s.blocks| then j + 1 else |s.blocks|
  }

  /** The address that block `i` has or will get. */
  function AddrOf(s: State, i: nat): nat
    requires i <= |s.blocks| && s.cut <= |s.blocks|
  {
    if i < |s.blocks| && i < s.cut then s.blocks[i].addr else s.tail + Pending(s.bits, s.blocks[s.cut..i])
  }

  lemma AddrOfCut(s: State)
    requires s.cut <= |s.blocks|
    ensures AddrOf(s, s.cut) == s.tail
  {
    assert s.blocks[s.cut..s.cut] == [];
  }

  /** Mapping the next block changes no address that is still to come. */
  lemma AddrOfStep(s: State, i: nat)
    requires s.cut < |s.blocks| && !Mapped(s.blocks[s.cut]) && i <= |s.blocks|
    ensures AddrOf(MapBlock(s, s.cut), i) == AddrOf(s, i)
  {
    MapBlockFacts(s);
    var m := MapBlock(s, s.cut);
    if i == s.cut {
      AddrOfCut(s);
    } else if i > s.cut {
      assert s.blocks[s.cut..i][1..] == m.blocks[m.cut..i];
    }
  }

  lemma {:induction false} MapUptoInv(s: State, j: nat)
    requires Inv(s) && Fits(s)
    ensures Inv(MapUpto(s, j)) && Fits(MapUpto(s, j))
    ensures StrictlyOrdered(s) ==> StrictlyOrdered(MapUpto(s, j))
    decreases |s.blocks| - s.cut
  {
    if s.cut <= j && s.cut < |s.blocks| {
      MapBlockInv(s);
      MapBlockFits(s);
      MapBlockFacts(s);
      MapUptoInv(MapBlock(s, s.cut), j);
    }
  }

  lemma {:induction false} MapUptoShape(s: State, j: nat)
    requires Inv(s) && Fits(s)
    ensures var t := MapUpto(s, j);
      && t.cut == CutAfter(s, j) && |t.blocks| == |s.blocks|
      && t.bits == s.bits && t.meta == s.meta && t.dev == s.dev
    decreases |s.blocks| - s.cut
  {
    if s.cut <= j && s.cut < |s.blocks| {
      MapBlockInv(s);
      MapBlockFits(s);
      MapBlockFacts(s);
      MapUptoShape(MapBlock(s, s.cut), j);
    }
  }

  /** Mapping changes no address that is still to come. */
  lemma {:induction false} MapUptoKeepsAddr(s: State, j: nat, i: nat)
    requires Inv(s) && Fits(s) && i <= |s.blocks|
    ensures |MapUpto(s, j).blocks| == |s.blocks| && MapUpto(s, j).cut <= |s.blocks|
    ensures AddrOf(MapUpto(s, j), i) == AddrOf(s, i)
    decreases |s.blocks| - s.cut
  {
    if s.cut <= j && s.cut < |s.blocks| {
      MapBlockInv(s);
      MapBlockFits(s);
      MapBlockFacts(s);
      AddrOfStep(s, i);
      MapUptoKeepsAddr(MapBlock(s, s.cut), j, i);
    }
  }

  /** Mapping touches nothing but addresses. */
  lemma {:induction false} MapUptoBlock(s: State, j: nat, i: nat)
    requires Inv(s) && Fits(s) && i < |s.blocks|
    ensures |MapUpto(s, j).blocks| == |s.blocks|
    ensures MapUpto(s, j).blocks[i].(addr := 0) == s.blocks[i].(addr := 0)
    decreases |s.blocks| - s.cut
  {
    if s.cut <= j && s.cut < |s.blocks| {
      MapBlockInv(s);
      MapBlockFits(s);
      MapBlockFacts(s);
      MapUptoBlock(MapBlock(s, s.cut), j, i);
    }
  }

  /** `MapBh` reaches the block it was asked for, so its panic is never hit, and
      gives the blocks it maps consecutive addresses from the old tail on. */
  lemma MapUptoFacts(s: State, j: nat)
    requires Inv(s) && Fits(s)
    ensures var t := MapUpto(s, j);
      && t.cut == CutAfter(s, j) && |t.blocks| == |s.blocks|
      && t.bits == s.bits && t.meta == s.meta && t.dev == s.dev
      && t.tail == AddrOf(s, t.cut)
      && forall i :: 0 <= i < |s.blocks| ==>
           t.blocks[i] == if i < t.cut then s.blocks[i].(addr := AddrOf(s, i)) else s.blocks[i]
  {
    var t := MapUpto(s, j);
    MapUptoShape(s, j);
    MapUptoInv(s, j);
    MapUptoKeepsAddr(s, j, t.cut);
    AddrOfCut(t);
    forall i | 0 <= i < |s.blocks|
      ensures t.blocks[i] == if i < t.cut then s.blocks[i].(addr := AddrOf(s, i)) else s.blocks[i]
    {
      MapUptoKeepsAddr(s, j, i);
      MapUptoBlock(s, j, i);
    }
  }

  /** Conservation: mapping does not change where the finished image ends, and
      with everything mapped the tail is that end: the old tail plus the sizes
      of the blocks that were not mapped. */
  lemma MappingConserves(s: State, j: nat)
    requires Inv(s) && Fits(s)
    ensures MapUpto(s, j).cut <= |MapUpto(s, j).blocks| == |s.blocks|
    ensures AddrOf(MapUpto(s, j), |s.blocks|) == AddrOf(s, |s.blocks|)
    ensures MapUpto(s, |s.blocks|).tail == s.tail + Pending(s.bits, s.blocks[s.cut..])
  {
    hide Inv, Fits, MapUpto, Pending, AddrOf;
    MapUptoKeepsAddr(s, j, |s.blocks|);
    MapUptoFacts(s, j);
    MapUptoFacts(s, |s.blocks|);
    AddrOfEnd(s);
  }

  /** The end of the image, after everything that is not mapped yet. */
  lemma AddrOfEnd(s: State)
    requires s.cut <= |s.blocks|
    ensures AddrOf(s, |s.blocks|) == s.tail + Pending(s.bits, s.blocks[s.cut..])
  {
    assert s.blocks[s.cut..|s.blocks|] == s.blocks[s.cut..];
  }

  /** After `MapBh(bmgr, nil)` the tail, which is written to the superblock as
      the number of blocks and used to resize the image, covers every head. */
  lemma BlockCountCoversHeads(s: State, i: nat, k: nat)
    requires Inv(s) && Fits(s) && IsHead(s, i, k) && s.blocks[i].off > 0
    ensures var t := MapUpto(s, |s.blocks|);
      && IsHead(t, i, k) && Mapped(t.blocks[i])
      && Tell(t, i, k, false) <= Tell(t, i, k, true) <= t.tail * BlkSiz(t)
  {
    hide Inv, Fits, MapUpto, Tell, AddrOf, EndAddr, Pending;
    MapUptoFacts(s, |s.blocks|);
    MapUptoInv(s, |s.blocks|);
    var t := MapUpto(s, |s.blocks|);
    AllMapped(t, i);
    HeadEnds(t, i, k);
    ExtentBytes(t, i, t.tail);
  }

  lemma AllMapped(t: State, i: nat)
    requires Inv(t) && i < t.cut && t.blocks[i].off > 0
    ensures Mapped(t.blocks[i]) && EndAddr(t.bits, t.blocks[i]) <= t.tail
  {
  }

  /** A head lies within the data of its block. */
  lemma HeadEnds(t: State, i: nat, k: nat)
    requires Inv(t) && IsHead(t, i, k) && Mapped(t.blocks[i])
    ensures Tell(t, i, k, false) <= Tell(t, i, k, true) <= t.blocks[i].addr * BlkSiz(t) + t.blocks[i].off
  {
    assert HeadsSorted(t.blocks[i]);
  }

  /** A bound on the end address bounds the bytes of the data. */
  lemma ExtentBytes(s: State, i: nat, bound: nat)
    requires i < |s.blocks| && EndAddr(s.bits, s.blocks[i]) <= bound
    ensures s.blocks[i].addr * BlkSiz(s) + s.blocks[i].off <= EndAddr(s.bits, s.blocks[i]) * BlkSiz(s) <= bound * BlkSiz(s)
  {
    var b := s.blocks[i];
    ExtentEndIsRoundUp(s.bits, b.off);
    Distribute(b.addr, Size(s.bits, b), BlkSiz(s));
    MulMono(EndAddr(s.bits, b), bound, BlkSiz(s));
  }

  lemma MulMono(x: nat, y: nat, d: nat)
    requires x <= y
    ensures x * d <= y * d
  {
    Distribute(x, y - x, d);
  }

  /** Byte `x` of the image belongs to head `k` of block `i`. */
  ghost predicate Covers(s: State, i: nat, k: nat, x: nat) {
    IsHead(s, i, k) && Mapped(s.blocks[i]) && Tell(s, i, k, false) <= x < Tell(s, i, k, true)
  }

  lemma HeadInBlock(s: State, i: nat, k: nat, x: nat)
    requires Inv(s) && Covers(s, i, k, x)
    ensures i < s.cut && s.blocks[i].off > 0
    ensures s.blocks[i].addr * BlkSiz(s) <= x < s.blocks[i].addr * BlkSiz(s) + s.blocks[i].off
  {
    assert HeadsSorted(s.blocks[i]);
  }

  lemma BlocksDisjoint(s: State, i: nat, j: nat, x: nat)
    requires Inv(s) && i < j < s.cut && s.blocks[i].off > 0 && s.blocks[j].off > 0
    requires x < s.blocks[i].addr * BlkSiz(s) + s.blocks[i].off
    ensures x < s.blocks[j].addr * BlkSiz(s)
  {
    ExtentBytes(s, i, s.blocks[j].addr);
  }

  /** No byte of the image belongs to two heads. */
  lemma HeadsDisjoint(s: State, i: nat, k: nat, j: nat, l: nat, x: nat)
    requires Inv(s) && Covers(s, i, k, x) && Covers(s, j, l, x)
    ensures i == j && k == l
  {
    HeadInBlock(s, i, k, x);
    HeadInBlock(s, j, l, x);
    if i < j {
      BlocksDisjoint(s, i, j, x);
    } else if j < i {
      BlocksDisjoint(s, j, i, x);
    } else {
      assert HeadsSorted(s.blocks[i]);
    }
  }

  /** And every byte from the first head to the end of the data belongs to one. */
  lemma {:induction false} ByteHasHead(s: State, i: nat, k: nat, x: nat) returns (l: nat)
    requires Inv(s) && i < s.cut && IsHead(s, i, k)
    requires s.blocks[i].addr * BlkSiz(s) + s.blocks[i].heads[k].off <= x < s.blocks[i].addr * BlkSiz(s) + s.blocks[i].off
    ensures Covers(s, i, l, x)
    decreases |s.blocks[i].heads| - k
  {
    PrefixOf(s);
    var hs := s.blocks[i].heads;
    if k + 1 < |hs| && s.blocks[i].addr * BlkSiz(s) + hs[k + 1].off <= x {
      l := ByteHasHead(s, i, k + 1, x);
    } else {
      l := k;
    }
  }

  /** A new data block is mapped before everything that is not mapped yet, to the tail
      address, and any other new block behind all of it. */
  lemma NewBlockAddress(s: State, ref: BufferBlock, typ: int)
    requires Inv(s)
    ensures var t := NewBlock(s, ref, typ);
      && s.cut <= |s.blocks| && t.cut == s.cut && |t.blocks| == |s.blocks| + 1
      && (typ == DATA ==> t.blocks[s.cut].ref == ref && AddrOf(t, s.cut) == s.tail)
      && (typ != DATA ==> t.blocks[|s.blocks|].ref == ref && AddrOf(t, |s.blocks|) == AddrOf(s, |s.blocks|))
  {
    hide Pending, Inv;
    InvCut(s);
    var t := NewBlock(s, ref, typ);
    NewBlockBlocks(s, ref, typ);
    AddrOfCut(t);
    if typ != DATA { assert t.blocks[t.cut..|s.blocks|] == s.blocks[s.cut..|s.blocks|]; }
  }
}
