/** What holds in every state reached from `ErofsBufferInit`, and a run in which
    a drop takes the extents out of order. */
module Reachable {
  import opened Rounding
  import opened Objects
  import opened Layout
  import opened LayoutInv
  import opened Mapping
  import opened Flushing
  import opened Runs
  import opened Conservation

  /** A run that begins with `ErofsBufferInit`. */
  ghost predicate FromInit(bits: nat, startblk: nat, dev: seq<byte>, steps: seq<Step>) {
    ValidBits(bits) && startblk < NULL_ADDR && RunOk(Init(bits, startblk, dev), steps)
  }

  ghost function Final(bits: nat, startblk: nat, dev: seq<byte>, steps: seq<Step>): State
    requires FromInit(bits, startblk, dev, steps)
  {
    Run(Init(bits, startblk, dev), steps)
  }

  /** In every reachable state the mapped blocks form a prefix of the list, no
      byte of the image belongs to two heads, and each block is in the one
      bucket of its type and fill if it is mapped and in none otherwise. */
  lemma ReachableLayout(bits: nat, startblk: nat, dev: seq<byte>, steps: seq<Step>)
    requires FromInit(bits, startblk, dev, steps)
    ensures var t := Final(bits, startblk, dev, steps);
      && Inv(t) && Fits(t)
      && (forall i :: 0 <= i < |t.blocks| ==> (Mapped(t.blocks[i]) <==> i < t.cut))
      && (forall i: nat, k: nat, j: nat, l: nat, x: nat :: Covers(t, i, k, x) && Covers(t, j, l, x) ==> i == j && k == l)
      && (forall i: nat, k: Key :: i < |t.blocks| && k in t.buckets ==>
            (t.blocks[i].ref in t.buckets[k] <==> Mapped(t.blocks[i]) && k == KeyOf(t.bits, t.blocks[i])))
  {
    hide RunOk, Run, Inv, Fits;
    InitInv(bits, startblk, dev);
    RunInv(Init(bits, startblk, dev), steps);
    var t := Final(bits, startblk, dev, steps);
    PrefixOf(t);
    forall i: nat, k: nat, j: nat, l: nat, x: nat | Covers(t, i, k, x) && Covers(t, j, l, x) ensures i == j && k == l {
      HeadsDisjoint(t, i, k, j, l, x);
    }
    forall i: nat, k: Key | i < |t.blocks| && k in t.buckets
      ensures t.blocks[i].ref in t.buckets[k] <==> Mapped(t.blocks[i]) && k == KeyOf(t.bits, t.blocks[i])
    {
      ExactlyOneBucket(t, i, k);
    }
  }

  /** Without a misplacing drop, so in particular without any drop, the extents
      of all mapped blocks ascend and the tail bounds them. */
  lemma ReachableOrder(bits: nat, startblk: nat, dev: seq<byte>, steps: seq<Step>)
    requires FromInit(bits, startblk, dev, steps) && NeverMisplaces(Init(bits, startblk, dev), steps)
    ensures Prefix(Final(bits, startblk, dev, steps)) && StrictlyOrdered(Final(bits, startblk, dev, steps))
  {
    InitInv(bits, startblk, dev);
    RunStrict(Init(bits, startblk, dev), steps);
  }

  /** `MetaBlkCnt` counts from zero. */
  lemma ReachableCount(bits: nat, startblk: nat, dev: seq<byte>, steps: seq<Step>)
    requires FromInit(bits, startblk, dev, steps)
    ensures Final(bits, startblk, dev, steps).meta == TotalCounted(Init(bits, startblk, dev), steps) % 0x1_0000_0000
  {
    hide RunOk, Run, Inv, Fits, TotalCounted;
    InitInv(bits, startblk, dev);
    RunCounts(Init(bits, startblk, dev), steps);
  }

  /** The block count of the finished image: the start block plus what the steps
      added and minus what they gave back, at most every request rounded up on
      its own. */
  lemma ReachableSize(bits: nat, startblk: nat, dev: seq<byte>, steps: seq<Step>)
    requires FromInit(bits, startblk, dev, steps)
    ensures var t := Final(bits, startblk, dev, steps);
      && t.cut <= |t.blocks|
      && EndOfImage(t) == startblk + Balance(Init(bits, startblk, dev), steps)
      && MapUpto(t, |t.blocks|).tail == EndOfImage(t) <= startblk + Needed(bits, steps)
  {
    hide RunOk, Run, Inv, Fits, StrictlyOrdered, MapUpto, Balance, Needed, EndOfImage, Under;
    var s, t := Init(bits, startblk, dev), Final(bits, startblk, dev, steps);
    InitInv(bits, startblk, dev);
    RunInv(s, steps);
    EndIs(s);
    assert s.blocks[s.cut..] == [];
    RunConserves(s, steps);
    StrictIsUnder(s);
    ImageIsBounded(s, steps, startblk);
    EndIs(t);
    MappingConserves(t, |t.blocks|);
  }

  /** In every reachable state a flush changes no byte of any mapped head. */
  lemma ReachableFlush(bits: nat, startblk: nat, dev: seq<byte>, steps: seq<Step>, stop: BufferBlock?,
                       i: nat, k: nat, x: nat)
    requires FromInit(bits, startblk, dev, steps)
    requires Covers(Final(bits, startblk, dev, steps), i, k, x) && x < |Final(bits, startblk, dev, steps).dev|
    ensures var t := Final(bits, startblk, dev, steps);
      x < |FlushFrom(t, 0, stop).state.dev| && FlushFrom(t, 0, stop).state.dev[x] == t.dev[x]
  {
    InitInv(bits, startblk, dev);
    RunInv(Init(bits, startblk, dev), steps);
    FlushKeepsMapped(Final(bits, startblk, dev, steps), stop, i, k, x);
  }

  /** A run without drops keeps that order. */
  lemma ReachableWithoutDrops(bits: nat, startblk: nat, dev: seq<byte>, steps: seq<Step>)
    requires FromInit(bits, startblk, dev, steps) && forall st :: st in steps ==> !st.DropHead?
    ensures Prefix(Final(bits, startblk, dev, steps)) && StrictlyOrdered(Final(bits, startblk, dev, steps))
  {
    NoDropNoMisplace(Init(bits, startblk, dev), steps);
    ReachableOrder(bits, startblk, dev, steps);
  }

  lemma {:induction false} NoDropNoMisplace(s: State, steps: seq<Step>)
    requires RunOk(s, steps) && forall st :: st in steps ==> !st.DropHead?
    ensures NeverMisplaces(s, steps)
    decreases steps
  {
    hide StepOk, Apply;
    if steps != [] {
      assert steps[0] in steps;
      NoDropNoMisplace(Apply(s, steps[0]), steps[1..]);
    }
  }

  // ------------------------------------------------ a misplacing drop happens

  /** A state without its buckets. */
  predicate Is(s: State, blocks: seq<BlockV>, cut: nat, tail: nat) {
    s.bits == 9 && s.blocks == blocks && s.cut == cut && s.tail == tail
  }

  function Empty(b: BufferBlock, addr: nat): BlockV { BlockV(b, addr, META, 0, []) }

  /** A block with one head of `n` bytes. */
  function One(b: BufferBlock, addr: nat, h: BufferHead, n: nat): BlockV {
    BlockV(b, addr, META, n, [HeadV(h, 0, NoOp)])
  }

  lemma Sizes(b: BufferBlock, h: BufferHead, addr: nat)
    ensures Pow2(9) == 512
    ensures Size(9, Empty(b, addr)) == 0 && Size(9, One(b, addr, h, 0)) == 0 && Size(9, One(b, addr, h, 1)) == 1
    ensures RoundUp(0, 1) == 0
  {
    BlockSizes(9);
    BlkRoundUpZero(9);
    BlkRoundUpOf(9, 1, 0, 1);
  }

  lemma Adds(s: State, blocks: seq<BlockV>, b: BufferBlock)
    requires Is(s, blocks, 0, 0) && FreshBlock(s, b)
    ensures StepOk(s, New(b, META)) && Is(Apply(s, New(b, META)), blocks + [Empty(b, NULL_ADDR)], 0, 0)
  {
  }

  lemma Returns(n: nat)
    requires n <= 1
    ensures Oob(9, 0, n, 1, 0) <= 0 ==> 0 < LastFill(9, n)
    ensures RoundUp(0, 1) + n + 0 < TWO_64 && Divides(1, Pow2(9)) && RoundUp(0, 1) == 0
  {
    RoundUpZero(1);
    ReturnedFill(9, n);
  }

  lemma Filled(s: State, blocks: seq<BlockV>, b: BufferBlock, h: BufferHead, n: nat)
    requires Is(s, blocks + [Empty(b, NULL_ADDR)], 0, 0)
    ensures Is(Attached(s, |blocks|, Fresh(h, NoOp), n, 1, 0), blocks + [One(b, NULL_ADDR, h, n)], 0, 0)
  {
    hide Oob, LastFill, Pow2, RoundUp, UpdateMapped, Size;
    RoundUpZero(1);
    var p := Placed(s, |blocks|, Fresh(h, NoOp), n, 1, 0);
    UpdateMappedRest(p, |blocks|);
    assert s.blocks[|blocks|] == Empty(b, NULL_ADDR);
    assert Grown(Empty(b, NULL_ADDR), Fresh(h, NoOp), n, 1) == One(b, NULL_ADDR, h, n);
    assert p.blocks == blocks + [One(b, NULL_ADDR, h, n)];
  }

  lemma FilledFits(t: State, blocks: seq<BlockV>, b: BufferBlock, h: BufferHead, n: nat)
    requires Is(t, blocks + [One(b, NULL_ADDR, h, n)], 0, 0) && n <= 1 && Pending(9, blocks) <= 1
    ensures Fits(t)
  {
    var bv := One(b, NULL_ADDR, h, n);
    assert t.blocks[0..] == t.blocks;
    PendingSplit(9, blocks, [bv]);
    PendingOne(9, bv);
    Sizes(b, h, NULL_ADDR);
  }

  /** An attach to the last block, nothing being mapped yet. */
  lemma Fills(s: State, blocks: seq<BlockV>, b: BufferBlock, h: BufferHead, n: nat)
    requires Is(s, blocks + [Empty(b, NULL_ADDR)], 0, 0) && n <= 1 && FreshHead(s, Fresh(h, NoOp))
    requires Pending(9, blocks) <= 1
    ensures var st := Attach(|blocks|, Fresh(h, NoOp), n, 1, 0);
      StepOk(s, st) && Is(Apply(s, st), blocks + [One(b, NULL_ADDR, h, n)], 0, 0)
  {
    hide Oob, LastFill, Pow2, RoundUp, Pending, FreshHead, Size, Divides, Attached, Fits;
    Returns(n);
    ReturnedFill(9, n);
    Filled(s, blocks, b, h, n);
    FilledFits(Attached(s, |blocks|, Fresh(h, NoOp), n, 1, 0), blocks, b, h, n);
  }

  lemma Maps(s: State, b: BufferBlock, h: BufferHead, c: BufferBlock, g: BufferHead)
    requires Is(s, [One(b, NULL_ADDR, h, 1), One(c, NULL_ADDR, g, 0)], 0, 0)
    ensures Is(Apply(s, MapTo(2)), [One(b, 0, h, 1), One(c, 1, g, 0)], 2, 1)
  {
    Sizes(b, h, NULL_ADDR);
    Sizes(c, g, NULL_ADDR);
    MapBlockValue(s);
    UpdateMappedRest(Addressed(s, 0), 0);
    var t := MapBlock(s, 0);
    assert Is(t, [One(b, 0, h, 1), One(c, NULL_ADDR, g, 0)], 1, 1);
    MapBlockValue(t);
    UpdateMappedRest(Addressed(t, 1), 1);
    var u := MapBlock(t, 1);
    assert Is(u, [One(b, 0, h, 1), One(c, 1, g, 0)], 2, 1);
    assert MapUpto(s, 2) == MapUpto(t, 2) == MapUpto(u, 2) == u;
  }

  function Misplacing(b: BufferBlock, h: BufferHead, c: BufferBlock, g: BufferHead): seq<Step> {
    [New(b, META)] + ([Attach(0, Fresh(h, NoOp), 1, 1, 0)] + AfterFirst(c, g))
  }

  function AfterFirst(c: BufferBlock, g: BufferHead): seq<Step> {
    [New(c, META)] + ([Attach(1, Fresh(g, NoOp), 0, 1, 0)] + ([MapTo(2)] + ([DropHead(0, 0, true)] + [])))
  }

  lemma RunCons(s: State, st: Step, steps: seq<Step>)
    requires StepOk(s, st) && RunOk(Apply(s, st), steps)
    ensures RunOk(s, [st] + steps) && Run(s, [st] + steps) == Run(Apply(s, st), steps)
  {
    assert ([st] + steps)[1..] == steps;
  }

  lemma SecondPart(s: State, b: BufferBlock, h: BufferHead, c: BufferBlock, g: BufferHead)
    requires Is(s, [One(b, NULL_ADDR, h, 1)], 0, 0) && b != c && h != g
    ensures RunOk(s, AfterFirst(c, g)) && !StrictlyOrdered(Run(s, AfterFirst(c, g)))
    ensures Is(Run(s, AfterFirst(c, g)), [One(c, 1, g, 0)], 1, 0)
  {
    hide StepOk, Apply, RunOk, Run, StrictlyOrdered, Pending, Size;
    var ob, oc := One(b, NULL_ADDR, h, 1), One(c, NULL_ADDR, g, 0);
    Adds(s, [ob], c);
    var t := Apply(s, New(c, META));
    PendingOne(9, ob);
    Sizes(b, h, NULL_ADDR);
    Fills(t, [ob], c, g, 0);
    var u := Apply(t, Attach(1, Fresh(g, NoOp), 0, 1, 0));
    assert [ob] + [oc] == [ob, oc];
    Maps(u, b, h, c, g);
    MapAllowed(u);
    var v := Apply(u, MapTo(2));
    LastDrop(v, b, h, c, g);
    Ending(Apply(v, DropHead(0, 0, true)));
    RunCons(v, DropHead(0, 0, true), []);
    RunCons(u, MapTo(2), [DropHead(0, 0, true)] + []);
    RunCons(t, Attach(1, Fresh(g, NoOp), 0, 1, 0), [MapTo(2)] + ([DropHead(0, 0, true)] + []));
    RunCons(s, New(c, META), [Attach(1, Fresh(g, NoOp), 0, 1, 0)] + ([MapTo(2)] + ([DropHead(0, 0, true)] + [])));
  }

  /** Six calls after which an empty mapped block lies above the tail: two
      blocks, one of them with an empty head, are mapped, and the drop of the
      other one gives back an address in front of it. */
  lemma OrderCanBreak(b: BufferBlock, h: BufferHead, c: BufferBlock, g: BufferHead)
    requires b != c && h != g
    ensures FromInit(9, 0, [], Misplacing(b, h, c, g))
    ensures !StrictlyOrdered(Final(9, 0, [], Misplacing(b, h, c, g)))
    ensures Is(Final(9, 0, [], Misplacing(b, h, c, g)), [One(c, 1, g, 0)], 1, 0)
  {
    hide StepOk, Apply, RunOk, Run, StrictlyOrdered, Pending, AfterFirst;
    var s := Init(9, 0, []);
    Adds(s, [], b);
    var t := Apply(s, New(b, META));
    NothingPending();
    Fills(t, [], b, h, 1);
    var u := Apply(t, Attach(0, Fresh(h, NoOp), 1, 1, 0));
    assert [] + [One(b, NULL_ADDR, h, 1)] == [One(b, NULL_ADDR, h, 1)];
    SecondPart(u, b, h, c, g);
    RunCons(t, Attach(0, Fresh(h, NoOp), 1, 1, 0), AfterFirst(c, g));
    RunCons(s, New(b, META), [Attach(0, Fresh(h, NoOp), 1, 1, 0)] + AfterFirst(c, g));
  }

  /** The flush that follows moves the end of the image from block 0 to block 1
      although it adds nothing: it visits the empty block above the tail. */
  lemma FlushCanMoveEnd(b: BufferBlock, h: BufferHead, c: BufferBlock, g: BufferHead)
    requires b != c && h != g
    ensures FromInit(9, 0, [], Misplacing(b, h, c, g))
    ensures var t := Final(9, 0, [], Misplacing(b, h, c, g));
      && StepOk(t, FlushTo(null)) && Apply(t, FlushTo(null)).cut <= |Apply(t, FlushTo(null)).blocks|
      && EndOfImage(t) == 0 && EndOfImage(Apply(t, FlushTo(null))) == 1
  {
    hide RunOk, Run, Inv, Fits, FlushFrom, Pending;
    OrderCanBreak(b, h, c, g);
    var t := Final(9, 0, [], Misplacing(b, h, c, g));
    InitInv(9, 0, []);
    RunInv(Init(9, 0, []), Misplacing(b, h, c, g));
    FlushConserves(t, 0, null);
    EndIs(t);
    assert t.blocks[t.cut..] == [];
    NothingPending();
    Sizes(c, g, 1);
    RaisedStep(t, 0, null, 0);
    assert t.blocks[1..1] == [];
  }

  lemma NothingPending()
    ensures Pending(9, []) == 0
  {
  }

  lemma Ending(s: State)
    ensures RunOk(s, []) && Run(s, []) == s
  {
  }

  lemma MapAllowed(s: State)
    requires s.cut <= |s.blocks|
    ensures StepOk(s, MapTo(2))
  {
  }

  lemma LastDrop(s: State, b: BufferBlock, h: BufferHead, c: BufferBlock, g: BufferHead)
    requires Is(s, [One(b, 0, h, 1), One(c, 1, g, 0)], 2, 1)
    ensures StepOk(s, DropHead(0, 0, true)) && !StrictlyOrdered(Apply(s, DropHead(0, 0, true)))
    ensures Is(Apply(s, DropHead(0, 0, true)), [One(c, 1, g, 0)], 1, 0)
  {
    Sizes(b, h, 0);
    Sizes(c, g, 1);
    var t := Apply(s, DropHead(0, 0, true));
    assert t.blocks == [One(c, 1, g, 0)];
    assert EndAddr(9, t.blocks[0]) > t.tail;
  }
}
