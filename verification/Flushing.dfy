/** `ErofsBflush`: which blocks it retires, what it accounts for, and that the
    zeroes it writes never reach a byte of any buffer head. */
module Flushing {
  import opened Rounding
  import opened Objects
  import opened Layout
  import opened LayoutInv
  import opened Mapping

  // ------------------------------------------------------------ one block

  /** `Kept` leaves heads out and reorders nothing. */
  lemma {:induction false} KeptThins(hs: seq<HeadV>) returns (f: seq<nat>)
    ensures Thinned(Kept(hs), hs, f)
  {
    hide Thinned;
    if hs == [] {
      f := [];
      NoneThinned();
    } else {
      var g := KeptThins(hs[1..]);
      f := seq(|g|, k requires 0 <= k < |g| => g[k] + 1);
      ThinTail(Kept(hs[1..]), hs, g, f);
      if hs[0].op != DropDirectly {
        ThinHead(Kept(hs[1..]), hs, f);
        f := [0] + f;
      }
    }
  }

  lemma NoneThinned()
    ensures Thinned([], [], [])
  {
  }

  lemma ThinTail(ks: seq<HeadV>, hs: seq<HeadV>, g: seq<nat>, f: seq<nat>)
    requires hs != [] && Thinned(ks, hs[1..], g)
    requires |f| == |g| && forall k :: 0 <= k < |g| ==> f[k] == g[k] + 1
    ensures Thinned(ks, hs, f) && 0 !in f
  {
  }

  lemma ThinHead(ks: seq<HeadV>, hs: seq<HeadV>, f: seq<nat>)
    requires hs != [] && Thinned(ks, hs, f) && 0 !in f
    ensures Thinned([hs[0]] + ks, hs, [0] + f)
  {
  }

  lemma ThinnedLength(ks: seq<HeadV>, hs: seq<HeadV>, g: seq<nat>)
    requires Thinned(ks, hs, g)
    ensures |g| == |ks|
  {
  }

  lemma ThinAppend(ks: seq<HeadV>, hs: seq<HeadV>, n: nat, g: seq<nat>, f: seq<nat>)
    requires n <= |hs| && Thinned(ks, hs[..n], g)
    requires |f| == |g| + |hs| - n && f[..|g|] == g && forall k :: |g| <= k < |f| ==> f[k] == n + k - |g|
    ensures Thinned(ks + hs[n..], hs, f)
  {
    assert forall k :: 0 <= k < |g| ==> f[k] == f[..|g|][k] == g[k];
  }

  lemma VisitThins(hs: seq<HeadV>) returns (f: seq<nat>)
    ensures var n := FirstBusy(hs); Thinned(Kept(hs[..n]) + hs[n..], hs, f)
  {
    hide Thinned, Kept, FirstBusy;
    var n := FirstBusy(hs);
    var g := KeptThins(hs[..n]);
    assert |g| == |Kept(hs[..n])| by { ThinnedLength(Kept(hs[..n]), hs[..n], g); }
    f := g + seq(|hs| - n, k requires 0 <= k => n + k);
    ThinAppend(Kept(hs[..n]), hs, n, g, f);
  }

  /** `MapBhInternal` as `ErofsBflush` calls it: the block is mapped already or
      is the next one to map. */
  lemma MapEither(s: State, i: nat)
    requires Inv(s) && Fits(s) && i < |s.blocks| && i <= s.cut
    ensures var m := MapBlock(s, i);
      && Inv(m) && Fits(m) && (StrictlyOrdered(s) ==> StrictlyOrdered(m))
      && m.cut == (if i < s.cut then s.cut else i + 1)
      && m.blocks == s.blocks[i := s.blocks[i].(addr := if i < s.cut then s.blocks[i].addr else s.tail)]
      && m.bits == s.bits && m.meta == s.meta && m.dev == s.dev && s.tail <= m.tail
      && (i < s.cut && StrictlyOrdered(s) ==> m == s)
  {
    hide Inv, Fits, StrictlyOrdered, Ordered;
    PrefixOf(s);
    if i < s.cut {
      OrderedOf(s);
      MapMappedInv(s, i);
      assert s.blocks[i := s.blocks[i].(addr := s.blocks[i].addr)] == s.blocks;
      MapMappedFits(s, i);
    } else {
      TailBounded(s);
      MapBlockInv(s);
      MapBlockFits(s);
      MapBlockFacts(s);
    }
  }

  lemma MapMappedFits(s: State, i: nat)
    requires Prefix(s) && Ordered(s) && Fits(s) && i < s.cut
    ensures Fits(MapBlock(s, i))
  {
    BlkRoundUpZero(s.bits);
    var m := MapBlock(s, i);
    assert m.tail == s.tail || m.tail == s.blocks[i].addr;
  }

  lemma FitsSame(s: State, t: State)
    requires Fits(s) && |t.blocks| == |s.blocks| && t.cut == s.cut && t.bits == s.bits && t.tail == s.tail
    requires forall j :: 0 <= j < |s.blocks| ==> t.blocks[j].off == s.blocks[j].off && t.blocks[j].addr == s.blocks[j].addr
    ensures Fits(t)
  {
    PendingSame(s.bits, s.blocks[s.cut..], t.blocks[t.cut..]);
  }

  lemma VisitedInv(s: State, i: nat)
    requires Inv(s) && Fits(s) && i < |s.blocks|
    ensures Inv(Visited(s, i)) && Fits(Visited(s, i))
    ensures StrictlyOrdered(s) ==> StrictlyOrdered(Visited(s, i))
  {
    hide Inv, StrictlyOrdered;
    var hs := s.blocks[i].heads;
    var n := FirstBusy(hs);
    var f := VisitThins(hs);
    ThinnedInv(s, i, Kept(hs[..n]) + hs[n..], f);
    FitsSame(s, Visited(s, i));
  }

  lemma InvSame(s: State, t: State)
    requires Inv(s) && t.(meta := s.meta, dev := s.dev) == s
    ensures Inv(t) && (StrictlyOrdered(s) ==> StrictlyOrdered(t))
  {
    CoreSame(s, t);
    SameIndex(s, t);
  }

  // ------------------------------------------------- what callers do

  lemma WithOpInv(s: State, i: nat, k: nat, op: HeadOp)
    requires Inv(s) && Fits(s) && IsHead(s, i, k)
    ensures Inv(WithOp(s, i, k, op)) && Fits(WithOp(s, i, k, op))
    ensures StrictlyOrdered(s) ==> StrictlyOrdered(WithOp(s, i, k, op))
  {
    hide Shape, Prefix, Distinct, Ordered, StrictlyOrdered, AllSorted, HeadsDistinct, Indexed, Fits;
    var t := WithOp(s, i, k, op);
    CutInList(s);
    SameList(s, t);
    OrderedByPrefix(s, t);
    IndexedByPrefix(s, t);
    FitsSame(s, t);
    WithOpHeads(s, i, k, op);
  }

  lemma WithOpHeads(s: State, i: nat, k: nat, op: HeadOp)
    requires HeadsDistinct(s) && AllSorted(s) && IsHead(s, i, k)
    ensures HeadsDistinct(WithOp(s, i, k, op)) && AllSorted(WithOp(s, i, k, op))
  {
    var t := WithOp(s, i, k, op);
    forall i1: nat, k1: nat, j: nat, l: nat |
      IsHead(t, i1, k1) && IsHead(t, j, l) && t.blocks[i1].heads[k1].ref == t.blocks[j].heads[l].ref
      ensures i1 == j && k1 == l
    {
      assert IsHead(s, i1, k1) && IsHead(s, j, l);
    }
    forall j | 0 <= j < |t.blocks| ensures HeadsSorted(t.blocks[j]) { assert HeadsSorted(s.blocks[j]); }
  }

  // ------------------------------------------------------ freeing a block

  lemma RetireIsFree(s: State, i: nat)
    requires i < |s.blocks|
    ensures Retire(s, i).(meta := s.meta, dev := s.dev) == Free(s, i)
  {
    PaddingEnds(s.bits, s.blocks[i].off, s.blocks[i].addr);
  }

  lemma RetireInv(s: State, i: nat)
    requires Inv(s) && Fits(s) && i < s.cut
    ensures Inv(Retire(s, i)) && Fits(Retire(s, i))
    ensures StrictlyOrdered(s) ==> StrictlyOrdered(Retire(s, i))
  {
    hide Inv, StrictlyOrdered, Retire, Free, Fits;
    InvCut(s);
    FreeInv(s, i);
    FreeFits(s, i);
    RetireIsFree(s, i);
    InvSame(Free(s, i), Retire(s, i));
    FitsSame(Free(s, i), Retire(s, i));
  }

  /** One round of the outer loop up to the decision whether to free the block. */
  lemma VisitStep(s: State, i: nat)
    requires Inv(s) && Fits(s) && i < |s.blocks| && i <= s.cut
    ensures var f, b := Visited(MapBlock(s, i), i), s.blocks[i];
      && Inv(f) && Fits(f) && (StrictlyOrdered(s) ==> StrictlyOrdered(f))
      && i < f.cut && |f.blocks| == |s.blocks| && f.blocks[i + 1..] == s.blocks[i + 1..]
      && f.blocks[..i] == s.blocks[..i] && f.blocks[i].off == b.off && f.blocks[i].typ == b.typ
      && f.blocks[i].ref == b.ref
      && f.bits == s.bits && f.meta == s.meta && f.dev == s.dev && s.tail <= f.tail
      && f.blocks[i].addr == (if i < s.cut then b.addr else s.tail)
      && f.cut == (if i < s.cut then s.cut else i + 1)
      && f.tail == MapBlock(s, i).tail
  {
    hide Inv, Fits, StrictlyOrdered, MapBlock;
    MapEither(s, i);
    VisitedInv(MapBlock(s, i), i);
  }

  /** One round of the outer loop from there on. */
  lemma RetireStep(f: State, i: nat)
    requires Inv(f) && Fits(f) && i < f.cut <= |f.blocks|
    ensures var r := Retire(f, i);
      && Inv(r) && Fits(r) && (StrictlyOrdered(f) ==> StrictlyOrdered(r))
      && i <= r.cut == f.cut - 1 && |r.blocks| == |f.blocks| - 1 && r.bits == f.bits && r.tail == f.tail
      && r.blocks[i..] == f.blocks[i + 1..] && r.blocks[..i] == f.blocks[..i]
      && r.meta == (if f.blocks[i].typ != DATA then U32(f.meta + Size(f.bits, f.blocks[i])) else f.meta)
  {
    hide Inv, Fits, StrictlyOrdered;
    RetireInv(f, i);
  }

  // ------------------------------------------------------------ all blocks

  /** Flushing keeps the invariant, also when a head refuses to be flushed. */
  lemma {:induction false} FlushInv(s: State, i: nat, stop: BufferBlock?)
    requires Inv(s) && Fits(s) && i <= s.cut
    ensures Inv(FlushFrom(s, i, stop).state) && Fits(FlushFrom(s, i, stop).state)
    ensures StrictlyOrdered(s) ==> StrictlyOrdered(FlushFrom(s, i, stop).state)
    decreases |s.blocks| - i
  {
    hide Inv, Fits, StrictlyOrdered, MapBlock, Visited, Retire;
    if i < |s.blocks| && s.blocks[i].ref != stop {
      var hs := s.blocks[i].heads;
      var f := Visited(MapBlock(s, i), i);
      VisitStep(s, i);
      if FirstBusy(hs) == |hs| {
        if Skips(hs) {
          FlushInv(f, i + 1, stop);
        } else {
          InvCut(f);
          RetireStep(f, i);
          FlushInv(Retire(f, i), i, stop);
        }
      }
    }
  }

  // ------------------------------------------------------------- accounts

  /** The blocks a flush gets to: all in front of `stop` and of the first block
      with a head that refuses. */
  function Reached(bs: seq<BlockV>, stop: BufferBlock?): seq<BlockV> {
    if bs == [] || bs[0].ref == stop || (exists k :: 0 <= k < |bs[0].heads| && bs[0].heads[k].op == Busy) then []
    else [bs[0]] + Reached(bs[1..], stop)
  }

  /** Blocks of the image used by the metadata blocks that do not skip the write. */
  function MetaBlocks(bits: nat, bs: seq<BlockV>): nat {
    if bs == [] then 0
    else (if bs[0].typ == DATA || Skips(bs[0].heads) then 0 else Size(bits, bs[0])) + MetaBlocks(bits, bs[1..])
  }

  /** That is the sum over the blocks of type META without a head that skips. */
  lemma {:induction false} MetaBlocksSnoc(bits: nat, bs: seq<BlockV>, b: BlockV)
    requires b.typ == DATA || b.typ == META
    ensures MetaBlocks(bits, []) == 0
    ensures MetaBlocks(bits, bs + [b]) == MetaBlocks(bits, bs) +
      if b.typ == META && forall k :: 0 <= k < |b.heads| ==> b.heads[k].op != SkipWrite then BlkRoundUp(bits, b.off) else 0
    decreases bs
  {
    hide BlkRoundUp;
    if bs == [] {
      assert ([] + [b])[1..] == [] && ([] + [b])[0] == b;
    } else {
      assert (bs + [b])[1..] == bs[1..] + [b];
      MetaBlocksSnoc(bits, bs[1..], b);
    }
  }

  lemma BusyIffFirst(hs: seq<HeadV>)
    ensures FirstBusy(hs) < |hs| <==> exists k :: 0 <= k < |hs| && hs[k].op == Busy
  {
  }

  lemma WrapSum(x: nat, y: nat, z: nat)
    ensures U32(U32(x + y) + z) == U32(x + y + z)
  {
  }

  lemma ReachedStep(bits: nat, bs: seq<BlockV>, i: nat, stop: BufferBlock?)
    requires i <= |bs|
    ensures MetaBlocks(bits, Reached(bs[i..], stop)) ==
      if i == |bs| || bs[i].ref == stop || FirstBusy(bs[i].heads) < |bs[i].heads| then 0
      else (if bs[i].typ == DATA || Skips(bs[i].heads) then 0 else Size(bits, bs[i]))
           + MetaBlocks(bits, Reached(bs[i + 1..], stop))
  {
    if i < |bs| {
      BusyIffFirst(bs[i].heads);
      assert bs[i..][0] == bs[i] && bs[i..][1..] == bs[i + 1..];
    }
  }

  /** `MetaBlkCnt` grows by the rounded sizes of the retired metadata blocks. */
  lemma {:induction false} FlushAccounts(s: State, i: nat, stop: BufferBlock?)
    requires Inv(s) && Fits(s) && i <= s.cut && s.meta < TWO_32
    ensures i <= |s.blocks|
    ensures FlushFrom(s, i, stop).state.meta == U32(s.meta + MetaBlocks(s.bits, Reached(s.blocks[i..], stop)))
    decreases |s.blocks| - i
  {
    hide Inv, Fits, StrictlyOrdered, MapBlock, Visited, Retire, BlkRoundUp, Reached, MetaBlocks, Skips;
    InvCut(s);
    ReachedStep(s.bits, s.blocks, i, stop);
    if i < |s.blocks| && s.blocks[i].ref != stop {
      var hs := s.blocks[i].heads;
      var f := Visited(MapBlock(s, i), i);
      VisitStep(s, i);
      if FirstBusy(hs) == |hs| {
        if Skips(hs) {
          FlushAccounts(f, i + 1, stop);
        } else {
          InvCut(f);
          RetireStep(f, i);
          FlushAccounts(Retire(f, i), i, stop);
          WrapSum(s.meta, Size(s.bits, s.blocks[i]), MetaBlocks(s.bits, Reached(s.blocks[i + 1..], stop)));
        }
      }
    }
  }

  /** When every head has an operation, a block is empty when it is freed: the
      emptiness the source checks in `ErofsBfree`. */
  lemma {:induction false} RetiredBlockIsEmpty(hs: seq<HeadV>)
    requires forall k :: 0 <= k < |hs| ==> hs[k].op == NoOp || hs[k].op == DropDirectly
    ensures Kept(hs) == [] <==> forall k :: 0 <= k < |hs| ==> hs[k].op != NoOp
  {
    if hs != [] {
      assert forall k :: 0 <= k < |hs[1..]| ==> hs[1..][k] == hs[k + 1];
      RetiredBlockIsEmpty(hs[1..]);
      if hs[0].op == DropDirectly && Kept(hs[1..]) == [] {
        forall k | 0 <= k < |hs| ensures hs[k].op != NoOp {
          if k > 0 { assert hs[1..][k - 1] == hs[k]; }
        }
      }
    }
  }

  // -------------------------------------------------------------- the tail

  function Max(x: nat, y: nat): nat { if x < y then y else x }

  /** Where the tail is once a flush has visited the mapped blocks `bs`: it gets
      to `stop` or up to and including the first block with a head that refuses,
      and each block it visits raises the tail to its end. */
  function Raised(bits: nat, bs: seq<BlockV>, stop: BufferBlock?, tail: nat): (r: nat)
    ensures r >= tail
  {
    if bs == [] || bs[0].ref == stop then tail
    else
      var t := Max(tail, EndAddr(bits, bs[0]));
      if FirstBusy(bs[0].heads) < |bs[0].heads| then t else Raised(bits, bs[1..], stop, t)
  }

  /** The state with the tail where a flush from position `i` on puts it before it
      maps anything. */
  function Lifted(s: State, i: nat, stop: BufferBlock?): State
    requires i <= s.cut <= |s.blocks|
  {
    s.(tail := Raised(s.bits, s.blocks[i..s.cut], stop, s.tail))
  }

  lemma RaisedStep(s: State, i: nat, stop: BufferBlock?, tail: nat)
    requires i < s.cut <= |s.blocks|
    ensures Raised(s.bits, s.blocks[i..s.cut], stop, tail) ==
      if s.blocks[i].ref == stop then tail
      else
        var t := Max(tail, EndAddr(s.bits, s.blocks[i]));
        if FirstBusy(s.blocks[i].heads) < |s.blocks[i].heads| then t
        else Raised(s.bits, s.blocks[i + 1..s.cut], stop, t)
  {
    assert s.blocks[i..s.cut][1..] == s.blocks[i + 1..s.cut];
  }

  lemma {:induction false} RaisedBound(bits: nat, bs: seq<BlockV>, stop: BufferBlock?, tail: nat, n: nat)
    requires tail <= n && forall j :: 0 <= j < |bs| ==> EndAddr(bits, bs[j]) <= n
    ensures Raised(bits, bs, stop, tail) <= n
  {
    if bs != [] {
      RaisedBound(bits, bs[1..], stop, Max(tail, EndAddr(bits, bs[0])), n);
    }
  }

  /** The blocks among `bs` that a flush visits, the refusing one included. */
  predicate Visits(bs: seq<BlockV>, stop: BufferBlock?, j: nat) {
    && j < |bs|
    && (forall l :: 0 <= l <= j ==> bs[l].ref != stop)
    && (forall l :: 0 <= l < j ==> FirstBusy(bs[l].heads) == |bs[l].heads|)
  }

  /** The tail stays if and only if no visited block ends above it. */
  lemma {:induction false} RaisedIff(bits: nat, bs: seq<BlockV>, stop: BufferBlock?, tail: nat)
    ensures Raised(bits, bs, stop, tail) == tail
      <==> forall j: nat :: Visits(bs, stop, j) ==> EndAddr(bits, bs[j]) <= tail
  {
    hide EndAddr;
    if bs != [] && bs[0].ref != stop {
      var e := EndAddr(bits, bs[0]);
      assert Visits(bs, stop, 0);
      if e <= tail && FirstBusy(bs[0].heads) == |bs[0].heads| {
        RaisedIff(bits, bs[1..], stop, tail);
        forall j: nat ensures Visits(bs, stop, j + 1) <==> Visits(bs[1..], stop, j) { VisitsTail(bs, stop, j); }
        forall j: nat | Visits(bs, stop, j) && Raised(bits, bs, stop, tail) == tail ensures EndAddr(bits, bs[j]) <= tail {
          if j > 0 { assert Visits(bs[1..], stop, j - 1) && bs[j] == bs[1..][j - 1]; }
        }
        forall j: nat | Visits(bs[1..], stop, j) ensures Visits(bs, stop, j + 1) && bs[1..][j] == bs[j + 1] {}
      }
    }
  }

  lemma VisitsTail(bs: seq<BlockV>, stop: BufferBlock?, j: nat)
    requires bs != [] && bs[0].ref != stop && FirstBusy(bs[0].heads) == |bs[0].heads|
    ensures Visits(bs, stop, j + 1) <==> Visits(bs[1..], stop, j)
  {
    if Visits(bs[1..], stop, j) {
      forall l | 0 <= l <= j + 1 ensures bs[l].ref != stop {
        if l > 0 { assert bs[1..][l - 1] == bs[l]; }
      }
      forall l | 0 <= l < j + 1 ensures FirstBusy(bs[l].heads) == |bs[l].heads| {
        if l > 0 { assert bs[1..][l - 1] == bs[l]; }
      }
    }
    if Visits(bs, stop, j + 1) {
      assert forall l :: 0 <= l <= j ==> bs[1..][l] == bs[l + 1];
    }
  }

  lemma TailRaised(s: State, u: State)
    requires Inv(s) && u == s.(tail := u.tail) && s.tail <= u.tail
    ensures Inv(u)
  {
    hide Shape, Prefix, Distinct, AllSorted, HeadsDistinct, Indexed, EndAddr;
    CutInList(s);
    SameList(s, u);
    SameHeads(s, u);
    IndexedByPrefix(s, u);
  }

  /** What is mapped ends with room for everything that is not. */
  lemma EndsFit(s: State, j: nat)
    requires Inv(s) && Fits(s) && j < s.cut <= |s.blocks|
    ensures EndAddr(s.bits, s.blocks[j]) + Pending(s.bits, s.blocks[s.cut..]) < NULL_ADDR
  {
    hide Pending;
    BlkRoundUpZero(s.bits);
  }

  lemma LiftedInv(s: State, i: nat, stop: BufferBlock?)
    requires Inv(s) && Fits(s) && i <= s.cut
    ensures s.cut <= |s.blocks| && Inv(Lifted(s, i, stop)) && Fits(Lifted(s, i, stop))
  {
    hide Inv, EndAddr, Raised, Pending;
    InvCut(s);
    var u := Lifted(s, i, stop);
    TailRaised(s, u);
    forall j | 0 <= j < |s.blocks[i..s.cut]|
      ensures EndAddr(s.bits, s.blocks[i..s.cut][j]) <= NULL_ADDR - 1 - Pending(s.bits, s.blocks[s.cut..])
    {
      EndsFit(s, i + j);
    }
    RaisedBound(s.bits, s.blocks[i..s.cut], stop, s.tail, NULL_ADDR - 1 - Pending(s.bits, s.blocks[s.cut..]));
  }

  lemma RetireTail(f: State, i: nat, tail: nat)
    requires i < |f.blocks|
    ensures Retire(f.(tail := tail), i) == Retire(f, i).(tail := tail)
  {
    hide BlkRoundUp, Padding, Pwrite, Zeros, UnlinkAll, U32;
    PaddingEnds(f.bits, f.blocks[i].off, f.blocks[i].addr);
  }

  /** Visiting a mapped block does nothing but raise the tail and run the heads. */
  lemma VisitMapped(s: State, i: nat, tail: nat)
    requires Inv(s) && Fits(s) && i < s.cut <= |s.blocks| && tail >= Max(s.tail, EndAddr(s.bits, s.blocks[i]))
    ensures var f := Visited(MapBlock(s, i), i);
      && f.tail == Max(s.tail, EndAddr(s.bits, s.blocks[i]))
      && f.blocks[i + 1..f.cut] == s.blocks[i + 1..s.cut]
      && Visited(MapBlock(s.(tail := tail), i), i) == f.(tail := tail)
  {
    hide Inv, Fits, BlkRoundUp;
    PrefixOf(s);
    VisitStep(s, i);
    var f := Visited(MapBlock(s, i), i);
    assert f.blocks[i + 1..][..f.cut - i - 1] == f.blocks[i + 1..f.cut];
    assert s.blocks[i + 1..][..f.cut - i - 1] == s.blocks[i + 1..f.cut];
  }

  /** Lifting the tail beforehand changes nothing about a flush. */
  lemma {:induction false} FlushLifts(s: State, i: nat, stop: BufferBlock?)
    requires Inv(s) && Fits(s) && i <= s.cut <= |s.blocks|
    ensures FlushFrom(Lifted(s, i, stop), i, stop) == FlushFrom(s, i, stop)
    decreases |s.blocks| - i
  {
    hide Inv, Fits, MapBlock, Visited, Retire, Raised, EndAddr;
    if i == s.cut {
      NoneRaised(s, i, stop);
    } else if s.blocks[i].ref == stop {
      RaisedStep(s, i, stop, s.tail);
    } else {
      RaisedStep(s, i, stop, s.tail);
      var u := Lifted(s, i, stop);
      var f := Visited(MapBlock(s, i), i);
      VisitMapped(s, i, u.tail);
      VisitStep(s, i);
      InvCut(f);
      if FirstBusy(s.blocks[i].heads) < |s.blocks[i].heads| {
      } else if Skips(s.blocks[i].heads) {
        FlushLifts(f, i + 1, stop);
      } else {
        RetireStep(f, i);
        RetireTail(f, i, u.tail);
        var r := Retire(f, i);
        assert r.blocks[i..][..r.cut - i] == r.blocks[i..r.cut];
        assert f.blocks[i + 1..][..r.cut - i] == f.blocks[i + 1..f.cut];
        FlushLifts(r, i, stop);
      }
    }
  }

  lemma NoneRaised(s: State, i: nat, stop: BufferBlock?)
    requires i == s.cut <= |s.blocks|
    ensures Lifted(s, i, stop) == s
  {
    assert s.blocks[i..s.cut] == [];
  }

  // --------------------------------------------------------------- device

  /** Byte `x` lies between the end of the data and the end of the extent. */
  predicate InPadding(bits: nat, b: BlockV, x: nat) {
    b.addr * Pow2(bits) + b.off <= x < EndAddr(bits, b) * Pow2(bits)
  }

  /** Retiring zeroes exactly the padding of the block. */
  lemma RetireDevice(s: State, i: nat, x: nat)
    requires i < |s.blocks|
    ensures x < |s.dev| ==> x < |Retire(s, i).dev|
    ensures InPadding(s.bits, s.blocks[i], x) ==> x < |Retire(s, i).dev| && Retire(s, i).dev[x] == 0
    ensures !InPadding(s.bits, s.blocks[i], x) && x < |s.dev| ==> Retire(s, i).dev[x] == s.dev[x]
  {
    hide BlkRoundUp, UnlinkAll, U32, Padding;
    var b := s.blocks[i];
    PaddingEnds(s.bits, b.off, b.addr);
  }

  /** Byte `x` belongs neither to the padding of a block still to be flushed nor
      to the part of the image that has no owner yet. */
  ghost predicate Safe(s: State, i: nat, x: nat) {
    && x < |s.dev| && x < s.tail * BlkSiz(s)
    && forall j :: i <= j < s.cut && j < |s.blocks| ==> !InPadding(s.bits, s.blocks[j], x)
  }

  /** Mapping and emptying block `i` keeps a byte safe, and so does retiring it. */
  lemma SafeStep(s: State, i: nat, x: nat)
    requires Inv(s) && Fits(s) && i < |s.blocks| && i <= s.cut && Safe(s, i, x)
    ensures Safe(Visited(MapBlock(s, i), i), i, x)
  {
    hide Inv, Fits, StrictlyOrdered, MapBlock, Visited, InPadding;
    var f := Visited(MapBlock(s, i), i);
    VisitStep(s, i);
    MulMono(s.tail, f.tail, BlkSiz(s));
    PaddingSame(s.bits, f.blocks[i], s.blocks[i], x);
    SafeAtEnd(s.bits, f.blocks[i], s.tail, x);
    InvCut(s);
    InvCut(f);
    forall j | i < j < f.cut ensures !InPadding(f.bits, f.blocks[j], x) {
      assert f.blocks[j] == s.blocks[i + 1..][j - i - 1];
    }
  }

  lemma PaddingSame(bits: nat, b: BlockV, c: BlockV, x: nat)
    requires b.off == c.off
    ensures b.addr == c.addr ==> InPadding(bits, b, x) == InPadding(bits, c, x)
  {
  }

  lemma SafeAtEnd(bits: nat, b: BlockV, tail: nat, x: nat)
    requires x < tail * Pow2(bits)
    ensures b.addr == tail ==> !InPadding(bits, b, x)
  {
  }

  lemma SafeRetired(f: State, i: nat, x: nat)
    requires Inv(f) && Fits(f) && i < f.cut && Safe(f, i, x)
    ensures Safe(Retire(f, i), i, x) && Retire(f, i).dev[x] == f.dev[x]
  {
    hide Inv, Fits, Retire, InPadding;
    InvCut(f);
    RetireStep(f, i);
    RetireDevice(f, i, x);
    var r := Retire(f, i);
    forall j | i <= j < r.cut ensures !InPadding(r.bits, r.blocks[j], x) {
      assert r.blocks[j] == r.blocks[i..][j - i];
    }
  }

  /** A byte in no padding stays what it was. */
  lemma {:induction false} FlushSpares(s: State, i: nat, stop: BufferBlock?, x: nat)
    requires Inv(s) && Fits(s) && i <= s.cut && Safe(s, i, x)
    ensures x < |FlushFrom(s, i, stop).state.dev| && FlushFrom(s, i, stop).state.dev[x] == s.dev[x]
    decreases |s.blocks| - i
  {
    hide Inv, Fits, StrictlyOrdered, MapBlock, Visited, Retire, InPadding;
    if i < |s.blocks| && s.blocks[i].ref != stop {
      var hs := s.blocks[i].heads;
      var f := Visited(MapBlock(s, i), i);
      VisitStep(s, i);
      SafeStep(s, i, x);
      if FirstBusy(hs) == |hs| {
        if Skips(hs) {
          FlushSpares(f, i + 1, stop, x);
        } else {
          InvCut(f);
          RetireStep(f, i);
          SafeRetired(f, i, x);
          FlushSpares(Retire(f, i), i, stop, x);
        }
      }
    }
  }

  /** Byte `x` is a data byte of block `j` at the address it has or will get. */
  ghost predicate DataByte(s: State, j: nat, x: nat) {
    && j < |s.blocks| && s.cut <= |s.blocks| && x < |s.dev|
    && AddrOf(s, j) * BlkSiz(s) <= x < AddrOf(s, j) * BlkSiz(s) + s.blocks[j].off
  }

  lemma MappedDataIsSafe(s: State, i: nat, j: nat, x: nat)
    requires Inv(s) && j < s.cut && DataByte(s, j, x)
    ensures Safe(s, i, x)
  {
    ExtentBytes(s, j, s.tail);
    forall l | i <= l < s.cut ensures !InPadding(s.bits, s.blocks[l], x) {
      if s.blocks[l].off == 0 {
        BlkRoundUpZero(s.bits);
      } else if l < j {
        ExtentBytes(s, l, s.blocks[j].addr);
      } else if j < l {
        BlocksDisjoint(s, j, l, x);
      }
    }
  }

  /** A flush from position `i` on leaves the tail alone until it maps a block. */
  ghost predicate Level(s: State, i: nat, stop: BufferBlock?) {
    i <= s.cut <= |s.blocks| && Raised(s.bits, s.blocks[i..s.cut], stop, s.tail) == s.tail
  }

  /** Mapping block `i`, mapped already or the next one, when nothing ends above
      the tail. */
  lemma MapLevel(s: State, i: nat, stop: BufferBlock?)
    requires Inv(s) && Fits(s) && i < |s.blocks| && Level(s, i, stop) && s.blocks[i].ref != stop
    ensures var m := MapBlock(s, i);
      && (i < s.cut ==> m == s)
      && m.cut <= |m.blocks| && EndAddr(m.bits, m.blocks[i]) <= m.tail
      && MapBlock(m, i) == m
      && m.blocks[i].heads == s.blocks[i].heads && m.blocks[i].ref == s.blocks[i].ref
  {
    PrefixOf(s);
    if i < s.cut {
      RaisedStep(s, i, stop, s.tail);
    } else {
      MapBlockFacts(s);
    }
  }

  lemma MapTwice(s: State, i: nat, stop: BufferBlock?)
    requires Inv(s) && Fits(s) && i < |s.blocks| && Level(s, i, stop) && s.blocks[i].ref != stop
    ensures FlushFrom(MapBlock(s, i), i, stop) == FlushFrom(s, i, stop)
  {
    hide Inv, Fits, MapBlock, Level, EndAddr;
    LevelCut(s, i, stop);
    MapLevel(s, i, stop);
    MapEither(s, i);
  }

  lemma AddrOfMapped(s: State, i: nat, stop: BufferBlock?, j: nat)
    requires Inv(s) && Fits(s) && i < |s.blocks| && Level(s, i, stop) && s.blocks[i].ref != stop && j <= |s.blocks|
    ensures MapBlock(s, i).cut <= |MapBlock(s, i).blocks|
    ensures AddrOf(MapBlock(s, i), j) == AddrOf(s, j)
  {
    hide Inv, Fits, MapBlock, AddrOf, EndAddr;
    MapLevel(s, i, stop);
    PrefixOf(s);
    if i == s.cut { AddrOfStep(s, j); }
  }

  /** The next round starts level again. */
  lemma LevelStep(s: State, i: nat, stop: BufferBlock?)
    requires Inv(s) && Fits(s) && i < |s.blocks| && Level(s, i, stop) && s.blocks[i].ref != stop
    requires FirstBusy(s.blocks[i].heads) == |s.blocks[i].heads|
    ensures var f := Visited(MapBlock(s, i), i);
      i < f.cut <= |f.blocks| && EndAddr(f.bits, f.blocks[i]) <= f.tail
      && Level(f, i + 1, stop) && Level(Retire(f, i), i, stop)
  {
    hide Inv, Fits, MapBlock, Visited, Retire, EndAddr;
    var f := Visited(MapBlock(s, i), i);
    MapLevel(s, i, stop);
    MapEither(s, i);
    VisitStep(s, i);
    InvCut(f);
    RetireStep(f, i);
    var r := Retire(f, i);
    assert r.blocks[i..][..r.cut - i] == r.blocks[i..r.cut];
    assert f.blocks[i + 1..][..r.cut - i] == f.blocks[i + 1..f.cut];
    assert s.blocks[i + 1..][..r.cut - i] == s.blocks[i + 1..f.cut];
    SameEnd(f.bits, MapBlock(s, i).blocks[i], f.blocks[i]);
    if i < s.cut {
      RaisedStep(s, i, stop, s.tail);
      VisitMapped(s, i, s.tail);
    }
  }

  /** Addresses to come are not below the tail. */
  lemma AddrOfAboveTail(s: State, j: nat)
    requires s.cut <= j <= |s.blocks|
    ensures AddrOf(s, j) >= s.tail
  {
  }

  lemma SliceOfRest(bs: seq<BlockV>, i: nat, p: nat, q: nat)
    requires i <= p <= q <= |bs|
    ensures bs[i..][p - i..q - i] == bs[p..q]
  {
    var u, v := bs[i..][p - i..q - i], bs[p..q];
    assert |u| == |v| && forall x :: 0 <= x < |u| ==> u[x] == bs[p + x] == v[x];
  }

  /** A block behind the cut gets the same address whether or not one of the
      mapped blocks is freed. */
  lemma RetireKeepsAddr(f: State, i: nat, j: nat)
    requires Inv(f) && Fits(f) && i < f.cut <= j <= |f.blocks|
    ensures i <= |f.blocks| && j - 1 <= |Retire(f, i).blocks| && Retire(f, i).cut <= |Retire(f, i).blocks|
    ensures AddrOf(Retire(f, i), j - 1) == AddrOf(f, j)
    ensures j < |f.blocks| ==> Retire(f, i).blocks[j - 1] == f.blocks[j]
  {
    hide Inv, Fits, Retire, BlkRoundUp;
    InvCut(f);
    RetireStep(f, i);
    var r := Retire(f, i);
    SliceOfRest(r.blocks, i, f.cut - 1, j - 1);
    SliceOfRest(f.blocks, i + 1, f.cut, j);
    if j < |f.blocks| { assert r.blocks[i..][j - 1 - i] == f.blocks[i + 1..][j - 1 - i]; }
  }

  lemma BelowTail(f: State, i: nat, j: nat, x: nat)
    requires i < f.cut <= j && DataByte(f, j, x) && EndAddr(f.bits, f.blocks[i]) <= f.tail
    ensures !InPadding(f.bits, f.blocks[i], x)
  {
    AddrOfAboveTail(f, j);
    MulMono(EndAddr(f.bits, f.blocks[i]), AddrOf(f, j), BlkSiz(f));
  }

  lemma RetireKeepsLater(f: State, i: nat, j: nat, x: nat)
    requires Inv(f) && Fits(f) && i < f.cut <= j && DataByte(f, j, x) && EndAddr(f.bits, f.blocks[i]) <= f.tail
    ensures DataByte(Retire(f, i), j - 1, x) && Retire(f, i).dev[x] == f.dev[x]
  {
    hide Inv, Fits, AddrOf, Retire, InPadding, EndAddr;
    RetireKeepsAddr(f, i, j);
    InvCut(f);
    RetireStep(f, i);
    BelowTail(f, i, j, x);
    RetireDevice(f, i, x);
  }

  lemma VisitedKeepsData(m: State, i: nat, j: nat, x: nat)
    requires i < |m.blocks| && DataByte(m, j, x) && m.cut <= j
    ensures DataByte(Visited(m, i), j, x) && Visited(m, i).dev == m.dev
  {
    PendingSame(m.bits, m.blocks[m.cut..j], Visited(m, i).blocks[m.cut..j]);
  }

  lemma {:induction false} LevelKeepsData(s: State, i: nat, stop: BufferBlock?, j: nat, x: nat)
    requires Inv(s) && Fits(s) && Level(s, i, stop) && DataByte(s, j, x)
    ensures x < |FlushFrom(s, i, stop).state.dev| && FlushFrom(s, i, stop).state.dev[x] == s.dev[x]
    decreases |s.blocks| - i
  {
    hide Inv, Fits, MapBlock, Visited, Retire, AddrOf, Level, EndAddr;
    InvCut(s);
    if j < s.cut {
      MappedDataIsSafe(s, i, j, x);
      LevelCut(s, i, stop);
      FlushSpares(s, i, stop, x);
    } else if i < |s.blocks| && s.blocks[i].ref != stop {
      var m := MapBlock(s, i);
      LevelCut(s, i, stop);
      MapEither(s, i);
      MapTwice(s, i, stop);
      AddrOfMapped(s, i, stop, j);
      if j < m.cut {
        MappedDataIsSafe(m, i, j, x);
        FlushSpares(m, i, stop, x);
      } else {
        var f := Visited(m, i);
        var hs := s.blocks[i].heads;
        VisitStep(s, i);
        VisitedKeepsData(m, i, j, x);
        if FirstBusy(hs) == |hs| {
          LevelStep(s, i, stop);
          if Skips(hs) {
            LevelKeepsData(f, i + 1, stop, j, x);
          } else {
            RetireStep(f, i);
            RetireKeepsLater(f, i, j, x);
            LevelKeepsData(Retire(f, i), i, stop, j - 1, x);
          }
        }
      }
    }
  }

  lemma LevelCut(s: State, i: nat, stop: BufferBlock?)
    requires Level(s, i, stop)
    ensures i <= s.cut <= |s.blocks|
  {
  }

  /** Every data byte of every block, mapped before the flush or by it, retired
      by it or not, is the same afterwards. */
  lemma FlushKeepsData(s: State, i: nat, stop: BufferBlock?, j: nat, x: nat)
    requires Inv(s) && Fits(s) && i <= s.cut <= |s.blocks| && DataByte(Lifted(s, i, stop), j, x)
    ensures x < |FlushFrom(s, i, stop).state.dev| && FlushFrom(s, i, stop).state.dev[x] == s.dev[x]
  {
    hide Inv, Fits, DataByte;
    LiftedInv(s, i, stop);
    LiftedIsLevel(s, i, stop);
    FlushLifts(s, i, stop);
    LevelKeepsData(Lifted(s, i, stop), i, stop, j, x);
  }

  lemma LiftedIsLevel(s: State, i: nat, stop: BufferBlock?)
    requires i <= s.cut <= |s.blocks|
    ensures Level(Lifted(s, i, stop), i, stop)
  {
    RaisedTwice(s.bits, s.blocks[i..s.cut], stop, s.tail, Lifted(s, i, stop).tail);
  }

  lemma {:induction false} RaisedTwice(bits: nat, bs: seq<BlockV>, stop: BufferBlock?, tail: nat, t: nat)
    requires t == Raised(bits, bs, stop, tail)
    ensures Raised(bits, bs, stop, t) == t
  {
    if bs != [] && bs[0].ref != stop && FirstBusy(bs[0].heads) == |bs[0].heads| {
      RaisedTwice(bits, bs[1..], stop, Max(tail, EndAddr(bits, bs[0])), t);
    }
  }

  /** No byte of a head of a mapped block is changed by a flush. */
  lemma FlushKeepsMapped(s: State, stop: BufferBlock?, i: nat, k: nat, x: nat)
    requires Inv(s) && Fits(s) && x < |s.dev| && Covers(s, i, k, x)
    ensures x < |FlushFrom(s, 0, stop).state.dev| && FlushFrom(s, 0, stop).state.dev[x] == s.dev[x]
  {
    hide Inv, Fits;
    HeadInBlock(s, i, k, x);
    InvCut(s);
    MappedDataIsSafe(s, 0, i, x);
    FlushSpares(s, 0, stop, x);
  }

  /** A whole flush never changes a byte of any buffer head, at the address the
      head has or will get once everything is mapped behind the blocks the flush
      visits. */
  lemma FlushKeepsHeads(s: State, stop: BufferBlock?, i: nat, k: nat, x: nat)
    requires Inv(s) && Fits(s) && s.cut <= |s.blocks| && x < |s.dev|
    requires Covers(MapUpto(Lifted(s, 0, stop), |s.blocks|), i, k, x)
    ensures x < |FlushFrom(s, 0, stop).state.dev| && FlushFrom(s, 0, stop).state.dev[x] == s.dev[x]
  {
    hide Inv, Fits, MapUpto, FlushFrom, Covers;
    var u := Lifted(s, 0, stop);
    LiftedInv(s, 0, stop);
    MapUptoFacts(u, |s.blocks|);
    MapUptoInv(u, |s.blocks|);
    HeadInBlock(MapUpto(u, |s.blocks|), i, k, x);
    FlushKeepsData(s, 0, stop, i, x);
  }

  /** Byte `x` is a padding byte of block `j` at the address it has or will get. */
  ghost predicate PaddingByte(s: State, j: nat, x: nat) {
    && j < |s.blocks| && s.cut <= |s.blocks|
    && InPadding(s.bits, s.blocks[j].(addr := AddrOf(s, j)), x)
  }

  lemma PaddingNotEmpty(bits: nat, b: BlockV, x: nat)
    requires InPadding(bits, b, x)
    ensures b.off > 0
  {
    BlkRoundUpZero(bits);
  }

  /** What ends before a block is in none of its padding. */
  lemma PaddingAhead(bits: nat, b: BlockV, c: BlockV, bound: nat, x: nat)
    requires InPadding(bits, b, x) && EndAddr(bits, b) <= bound
    ensures x < bound * Pow2(bits)
    ensures bound <= c.addr ==> !InPadding(bits, c, x)
  {
    hide EndAddr;
    MulMono(EndAddr(bits, b), bound, Pow2(bits));
    if bound <= c.addr { MulMono(bound, c.addr, Pow2(bits)); }
  }

  lemma ExtentsAscend(s: State, i: nat, j: nat)
    requires Inv(s) && i < j < s.cut && s.blocks[i].off > 0 && s.blocks[j].off > 0
    ensures EndAddr(s.bits, s.blocks[i]) <= s.blocks[j].addr
  {
  }

  lemma ExtentBelowTail(s: State, i: nat)
    requires Inv(s) && i < s.cut && s.blocks[i].off > 0
    ensures EndAddr(s.bits, s.blocks[i]) <= s.tail
  {
  }

  lemma RetiredPaddingIsSafe(f: State, i: nat, x: nat)
    requires Inv(f) && Fits(f) && i < f.cut && InPadding(f.bits, f.blocks[i], x)
    ensures Safe(Retire(f, i), i, x) && Retire(f, i).dev[x] == 0
  {
    hide Inv, Fits, Retire, InPadding, EndAddr;
    InvCut(f);
    RetireStep(f, i);
    RetireDevice(f, i, x);
    PaddingNotEmpty(f.bits, f.blocks[i], x);
    ExtentBelowTail(f, i);
    PaddingAhead(f.bits, f.blocks[i], f.blocks[i], f.tail, x);
    var r := Retire(f, i);
    forall l | i <= l < r.cut ensures !InPadding(r.bits, r.blocks[l], x) {
      assert r.blocks[l] == r.blocks[i..][l - i] == f.blocks[i + 1..][l - i] == f.blocks[l + 1];
      if InPadding(r.bits, f.blocks[l + 1], x) {
        PaddingNotEmpty(f.bits, f.blocks[l + 1], x);
        ExtentsAscend(f, i, l + 1);
        PaddingAhead(f.bits, f.blocks[i], f.blocks[l + 1], f.blocks[l + 1].addr, x);
      }
    }
  }

  lemma VisitedKeepsAddr(m: State, i: nat, j: nat)
    requires i < |m.blocks| && m.cut <= |m.blocks| && j < |m.blocks|
    ensures AddrOf(Visited(m, i), j) == AddrOf(m, j)
    ensures Visited(m, i).blocks[j].off == m.blocks[j].off
  {
    if m.cut <= j { PendingSame(m.bits, m.blocks[m.cut..j], Visited(m, i).blocks[m.cut..j]); }
  }

  lemma PaddingByteMapped(s: State, i: nat, stop: BufferBlock?, j: nat, x: nat)
    requires Inv(s) && Fits(s) && i < |s.blocks| && Level(s, i, stop) && s.blocks[i].ref != stop && PaddingByte(s, j, x)
    ensures PaddingByte(Visited(MapBlock(s, i), i), j, x)
  {
    hide Inv, Fits, MapBlock, Visited, AddrOf, InPadding, Level;
    LevelCut(s, i, stop);
    AddrOfMapped(s, i, stop, j);
    MapEither(s, i);
    VisitStep(s, i);
    var m := MapBlock(s, i);
    InvCut(Visited(m, i));
    VisitedKeepsAddr(m, i, j);
    PaddingSame(s.bits, s.blocks[j].(addr := AddrOf(s, j)), Visited(m, i).blocks[j].(addr := AddrOf(s, j)), x);
  }

  lemma PaddingByteRetired(f: State, i: nat, j: nat, x: nat)
    requires Inv(f) && Fits(f) && i < f.cut && i < j && PaddingByte(f, j, x)
    ensures PaddingByte(Retire(f, i), j - 1, x)
  {
    hide Fits;
    RetireStep(f, i);
    FreeShift(f, i);
    if f.cut <= j { RetireKeepsAddr(f, i, j); }
  }

  lemma {:induction false} LevelZeroes(s: State, i: nat, stop: BufferBlock?, j: nat, x: nat)
    requires Inv(s) && Fits(s) && Level(s, i, stop) && PaddingByte(s, j, x)
    requires i <= j < i + |Reached(s.blocks[i..], stop)| && !Skips(s.blocks[j].heads)
    ensures x < |FlushFrom(s, i, stop).state.dev| && FlushFrom(s, i, stop).state.dev[x] == 0
    decreases |s.blocks| - i
  {
    hide Inv, Fits, MapBlock, Visited, Retire, AddrOf, InPadding, Level, EndAddr;
    InvCut(s);
    LevelCut(s, i, stop);
    var hs := s.blocks[i].heads;
    var f := Visited(MapBlock(s, i), i);
    VisitStep(s, i);
    BusyIffFirst(hs);
    PaddingByteMapped(s, i, stop, j, x);
    LevelStep(s, i, stop);
    InvCut(f);
    RetireStep(f, i);
    assert s.blocks[i..][0] == s.blocks[i] && s.blocks[i..][1..] == s.blocks[i + 1..];
    assert j > i ==> f.blocks[j] == f.blocks[i + 1..][j - i - 1] == s.blocks[i + 1..][j - i - 1];
    if Skips(hs) {
      LevelZeroes(f, i + 1, stop, j, x);
    } else if j == i {
      PaddingAtHome(f, i, x);
      RetiredPaddingIsSafe(f, i, x);
      FlushSpares(Retire(f, i), i, stop, x);
    } else {
      PaddingByteRetired(f, i, j, x);
      assert Retire(f, i).blocks[j - 1] == Retire(f, i).blocks[i..][j - 1 - i];
      LevelZeroes(Retire(f, i), i, stop, j - 1, x);
    }
  }

  /** Every padding byte of a retired block is zero afterwards. */
  lemma FlushZeroes(s: State, i: nat, stop: BufferBlock?, j: nat, x: nat)
    requires Inv(s) && Fits(s) && i <= s.cut <= |s.blocks| && PaddingByte(Lifted(s, i, stop), j, x)
    requires i <= j < i + |Reached(s.blocks[i..], stop)| && !Skips(s.blocks[j].heads)
    ensures x < |FlushFrom(s, i, stop).state.dev| && FlushFrom(s, i, stop).state.dev[x] == 0
  {
    hide Inv, Fits, PaddingByte, Reached;
    LiftedInv(s, i, stop);
    LiftedIsLevel(s, i, stop);
    FlushLifts(s, i, stop);
    LevelZeroes(Lifted(s, i, stop), i, stop, j, x);
  }

  lemma PaddingAtHome(f: State, i: nat, x: nat)
    requires i < f.cut && PaddingByte(f, i, x)
    ensures InPadding(f.bits, f.blocks[i], x)
  {
  }
}
