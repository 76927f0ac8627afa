/** What the allocator gives out and takes back over whole runs: where the image
    ends, and what `MetaBlkCnt` counts. */
module Conservation {
  import opened Rounding
  import opened Objects
  import opened Layout
  import opened LayoutInv
  import opened Mapping
  import opened Flushing
  import opened Placement
  import opened Runs

  /** Where the image ends once everything is mapped: the block count that
      `MapBh` returns for the superblock. */
  function EndOfImage(s: State): nat
    requires s.cut <= |s.blocks|
  {
    AddrOf(s, |s.blocks|)
  }

  lemma EndIs(s: State)
    requires s.cut <= |s.blocks|
    ensures EndOfImage(s) == s.tail + Pending(s.bits, s.blocks[s.cut..])
  {
    AddrOfEnd(s);
  }

  /** Blocks of the image that a step adds or gives back. A flush adds some when it
      visits a mapped block that ends above the tail. */
  ghost function Delta(s: State, st: Step): int
    requires StepOk(s, st)
  {
    match st
    case New(block, typ) => 0
    case Attach(i, h, incr, align, extra) =>
      if TryAttach(s, i, incr, align, extra) < 0 then 0
      else Size(s.bits, Grown(s.blocks[i], h, incr, align)) - Size(s.bits, s.blocks[i])
    case MapTo(j) => 0
    case FlushTo(stop) => Lifted(s, 0, stop).tail - s.tail
    case DropHead(i, k, revoke) =>
      if |s.blocks[i].heads| == 1 && (Revokes(s, i, revoke) || !Mapped(s.blocks[i]))
      then 0 - Size(s.bits, s.blocks[i]) else 0
    case SetOp(i, k, op) => 0
    case WriteTo(i, k, skip, data) => 0
  }

  lemma NewConserves(s: State, block: BufferBlock, typ: int)
    requires s.cut <= |s.blocks|
    ensures NewBlock(s, block, typ).cut <= |NewBlock(s, block, typ).blocks|
    ensures EndOfImage(NewBlock(s, block, typ)) == EndOfImage(s)
  {
    EndIs(s);
    EndIs(NewBlock(s, block, typ));
    NewBlockPending(s, block, typ);
  }

  lemma AttachConserves(s: State, i: nat, h: Incoming, incr: nat, align: nat, extra: nat)
    requires Inv(s) && CanRequest(s, i, h, incr, align, extra) && TryAttach(s, i, incr, align, extra) >= 0
    ensures var t := Attached(s, i, h, incr, align, extra);
      && s.cut <= |s.blocks| && t.cut <= |t.blocks|
      && EndOfImage(t) == EndOfImage(s) + Size(s.bits, Grown(s.blocks[i], h, incr, align)) - Size(s.bits, s.blocks[i])
  {
    hide RoundUp, BlkRoundUp, Oob, LastFill, Pending, TryAttach, Inv;
    InvCut(s);
    AttachCases(s, i, h, incr, align, extra);
    var p := Placed(s, i, h, incr, align, extra);
    var t := Attached(s, i, h, incr, align, extra);
    UpdateMappedRest(p, i);
    EndIs(s);
    EndIs(t);
    if i >= s.cut {
      PrefixOf(s);
      assert t.blocks[t.cut..] == s.blocks[s.cut..][i - s.cut := p.blocks[i]];
      PendingUpdate(s.bits, s.blocks[s.cut..], i - s.cut, p.blocks[i]);
    } else {
      assert t.blocks[t.cut..] == s.blocks[s.cut..];
    }
  }

  lemma RetireConserves(f: State, i: nat)
    requires Inv(f) && Fits(f) && i < f.cut <= |f.blocks|
    ensures var r := Retire(f, i); r.cut <= |r.blocks| && EndOfImage(r) == EndOfImage(f)
  {
    hide Inv, Fits, Retire, Pending, Size, EndOfImage;
    RetireStep(f, i);
    var r := Retire(f, i);
    EndIs(f);
    EndIs(r);
    Rests(r.blocks, i, r.cut);
    Rests(f.blocks, i + 1, f.cut);
  }

  lemma Rests(bs: seq<BlockV>, i: nat, j: nat)
    requires i <= j <= |bs|
    ensures bs[j..] == bs[i..][j - i..]
  {
  }

  /** Mapping and emptying one block of the outer loop of the flush. */
  lemma VisitConserves(s: State, i: nat, stop: BufferBlock?)
    requires Inv(s) && Fits(s) && i < |s.blocks| && Level(s, i, stop) && s.blocks[i].ref != stop
    ensures var f := Visited(MapBlock(s, i), i); f.cut <= |f.blocks| && EndOfImage(f) == EndOfImage(s)
  {
    hide Inv, Fits, MapBlock, Visited, EndAddr, Size, Level, Pending;
    LevelCut(s, i, stop);
    MapLevel(s, i, stop);
    VisitStep(s, i);
    var f := Visited(MapBlock(s, i), i);
    EndIs(s);
    EndIs(f);
    if i < s.cut {
      Rests(f.blocks, i + 1, f.cut);
      Rests(s.blocks, i + 1, s.cut);
    } else {
      PendingHead(s);
      MapTail(s);
    }
  }

  lemma MapTail(s: State)
    requires Inv(s) && s.cut < |s.blocks|
    ensures MapBlock(s, s.cut).tail == s.tail + Size(s.bits, s.blocks[s.cut])
  {
    MapBlockFacts(s);
  }

  lemma {:induction false} LevelConserves(s: State, i: nat, stop: BufferBlock?)
    requires Inv(s) && Fits(s) && Level(s, i, stop)
    ensures var t := FlushFrom(s, i, stop).state; t.cut <= |t.blocks| && EndOfImage(t) == EndOfImage(s)
    decreases |s.blocks| - i
  {
    hide Inv, Fits, MapBlock, Visited, Retire, EndOfImage, EndAddr, Level;
    LevelCut(s, i, stop);
    if i < |s.blocks| && s.blocks[i].ref != stop {
      var hs := s.blocks[i].heads;
      var f := Visited(MapBlock(s, i), i);
      VisitStep(s, i);
      InvCut(f);
      VisitConserves(s, i, stop);
      if FirstBusy(hs) == |hs| {
        LevelStep(s, i, stop);
        if Skips(hs) {
          LevelConserves(f, i + 1, stop);
        } else {
          RetireStep(f, i);
          RetireConserves(f, i);
          LevelConserves(Retire(f, i), i, stop);
        }
      }
    }
  }

  /** A flush moves the end of the image exactly as far as the mapped blocks it
      visits end above the tail. */
  lemma FlushConserves(s: State, i: nat, stop: BufferBlock?)
    requires Inv(s) && Fits(s) && i <= s.cut <= |s.blocks|
    ensures var t := FlushFrom(s, i, stop).state;
      && t.cut <= |t.blocks|
      && EndOfImage(t) == EndOfImage(s) + Lifted(s, i, stop).tail - s.tail
  {
    hide Inv, Fits, Raised, FlushFrom, Level;
    LiftedInv(s, i, stop);
    LiftedIsLevel(s, i, stop);
    FlushLifts(s, i, stop);
    LevelConserves(Lifted(s, i, stop), i, stop);
    EndIs(s);
    EndIs(Lifted(s, i, stop));
  }

  /** So the end stays if and only if no mapped block that the flush visits, the
      refusing one included, ends above the tail. */
  lemma FlushConservesIff(s: State, stop: BufferBlock?)
    requires Inv(s) && Fits(s) && s.cut <= |s.blocks|
    ensures var t := FlushFrom(s, 0, stop).state;
      && t.cut <= |t.blocks|
      && (EndOfImage(t) == EndOfImage(s)
          <==> forall j: nat :: Visits(s.blocks[0..s.cut], stop, j) ==> EndAddr(s.bits, s.blocks[j]) <= s.tail)
  {
    hide Inv, Fits, Raised, FlushFrom, EndOfImage, EndAddr;
    FlushConserves(s, 0, stop);
    RaisedIff(s.bits, s.blocks[0..s.cut], stop, s.tail);
  }

  /** In particular it stays when all extents are in order. */
  lemma StrictFlushIsFree(s: State, stop: BufferBlock?)
    requires StrictlyOrdered(s) && StepOk(s, FlushTo(stop))
    ensures Delta(s, FlushTo(stop)) == 0
  {
    RaisedIff(s.bits, s.blocks[0..s.cut], stop, s.tail);
  }

  lemma ThinnedEnd(s: State, t: State)
    requires s.cut <= |s.blocks| == |t.blocks| && t.cut == s.cut && t.bits == s.bits && t.tail == s.tail
    requires forall j :: 0 <= j < |s.blocks| ==> t.blocks[j].off == s.blocks[j].off
    ensures EndOfImage(t) == EndOfImage(s)
  {
    EndIs(s);
    EndIs(t);
    PendingSame(s.bits, s.blocks[s.cut..], t.blocks[t.cut..]);
  }

  lemma FreeEnd(s: State, i: nat)
    requires s.cut <= |s.blocks| && i < |s.blocks|
    ensures var u := Free(s, i);
      && u.cut <= |u.blocks|
      && EndOfImage(u) == EndOfImage(s) - if i < s.cut then 0 else Size(s.bits, s.blocks[i])
  {
    hide Pending, Size, Free, EndOfImage;
    FreePending(s, i);
    EndIs(s);
    EndIs(Free(s, i));
  }

  lemma DropConserves(s: State, i: nat, k: nat, revoke: bool)
    requires Inv(s) && IsHead(s, i, k)
    ensures var t := Drop(s, i, k, revoke);
      && s.cut <= |s.blocks| && t.cut <= |t.blocks|
      && EndOfImage(t) == EndOfImage(s) + Delta(s, DropHead(i, k, revoke))
  {
    hide Free, EndOfImage;
    InvCut(s);
    PrefixOf(s);
    var m := s.(blocks := s.blocks[i := WithoutHead(s.blocks[i], k)]);
    ThinnedEnd(s, m);
    if |s.blocks[i].heads| == 1 {
      FreeEnd(m, i);
      var u, t := Free(m, i), Drop(s, i, k, revoke);
      FreeMore(m, i);
      EndIs(u);
      EndIs(t);
    }
  }

  lemma FreeMore(s: State, i: nat)
    requires i < |s.blocks|
    ensures Free(s, i).tail == s.tail && Free(s, i).bits == s.bits
  {
  }

  lemma OpEnd(s: State, i: nat, k: nat, op: HeadOp)
    requires s.cut <= |s.blocks| && IsHead(s, i, k)
    ensures WithOp(s, i, k, op).cut <= |WithOp(s, i, k, op).blocks|
    ensures EndOfImage(WithOp(s, i, k, op)) == EndOfImage(s)
  {
    hide EndOfImage;
    ThinnedEnd(s, WithOp(s, i, k, op));
  }

  lemma WrittenEnd(s: State, i: nat, k: nat, skip: nat, data: seq<byte>)
    requires s.cut <= |s.blocks| && IsHead(s, i, k)
    ensures Written(s, i, k, skip, data).cut <= |Written(s, i, k, skip, data).blocks|
    ensures EndOfImage(Written(s, i, k, skip, data)) == EndOfImage(s)
  {
    hide EndOfImage;
    ThinnedEnd(s, Written(s, i, k, skip, data));
  }

  lemma MapConserves(s: State, j: nat)
    requires Inv(s) && Fits(s)
    ensures s.cut <= |s.blocks| && MapUpto(s, j).cut <= |MapUpto(s, j).blocks|
    ensures EndOfImage(MapUpto(s, j)) == EndOfImage(s)
  {
    InvCut(s);
    MappingConserves(s, j);
  }

  /** Every step moves the end of the image by what it adds or gives back. */
  lemma StepConserves(s: State, st: Step)
    requires Inv(s) && Fits(s) && StepOk(s, st)
    ensures s.cut <= |s.blocks| && Apply(s, st).cut <= |Apply(s, st).blocks|
    ensures EndOfImage(Apply(s, st)) == EndOfImage(s) + Delta(s, st)
  {
    hide Inv, Fits, Lifted, WithOp, Written, NewBlock, Attached, MapUpto, FlushFrom, Drop, EndOfImage, TryAttach;
    InvCut(s);
    match st
    case New(block, typ) => NewConserves(s, block, typ);
    case Attach(i, h, incr, align, extra) =>
      if TryAttach(s, i, incr, align, extra) >= 0 { AttachConserves(s, i, h, incr, align, extra); }
    case MapTo(j) => MapConserves(s, j);
    case FlushTo(stop) => FlushConserves(s, 0, stop);
    case DropHead(i, k, revoke) => DropConserves(s, i, k, revoke);
    case SetOp(i, k, op) => OpEnd(s, i, k, op);
    case WriteTo(i, k, skip, data) => WrittenEnd(s, i, k, skip, data);
  }

  ghost function Balance(s: State, steps: seq<Step>): int
    requires RunOk(s, steps)
    decreases steps
  {
    if steps == [] then 0 else Delta(s, steps[0]) + Balance(Apply(s, steps[0]), steps[1..])
  }

  /** Conservation over whole runs: however blocks were mapped and flushed in
      between, the image ends where the additions of the single steps put it. */
  lemma {:induction false} RunConserves(s: State, steps: seq<Step>)
    requires Inv(s) && Fits(s) && RunOk(s, steps)
    ensures s.cut <= |s.blocks| && Run(s, steps).cut <= |Run(s, steps).blocks|
    ensures EndOfImage(Run(s, steps)) == EndOfImage(s) + Balance(s, steps)
    decreases steps
  {
    hide Inv, Fits, StepOk, Apply, EndOfImage, Delta;
    InvCut(s);
    if steps != [] {
      StepConserves(s, steps[0]);
      StepInv(s, steps[0]);
      RunConserves(Apply(s, steps[0]), steps[1..]);
    }
  }

  // ------------------------------------------------------------ an upper bound

  /** Blocks of the image that the requests of a run need on their own. */
  function Needed(bits: nat, steps: seq<Step>): nat {
    if steps == [] then 0 else StepNeeds(bits, steps[0]) + Needed(bits, steps[1..])
  }

  function StepNeeds(bits: nat, st: Step): nat { if st.Attach? then BlkRoundUp(bits, st.incr) else 0 }

  /** Nothing that is mapped ends above `n` even with all that is not mapped yet
      behind it, and neither does the image. */
  ghost predicate Under(s: State, n: nat) {
    && s.cut <= |s.blocks|
    && s.tail + Pending(s.bits, s.blocks[s.cut..]) <= n
    && forall j :: 0 <= j < s.cut ==> EndAddr(s.bits, s.blocks[j]) + Pending(s.bits, s.blocks[s.cut..]) <= n
  }

  lemma NewUnder(s: State, block: BufferBlock, typ: int, n: nat)
    requires Under(s, n)
    ensures Under(NewBlock(s, block, typ), n)
  {
    hide Pending, EndAddr;
    NewBlockPending(s, block, typ);
    NewBlockBlocks(s, block, typ);
  }

  /** A successful attach adds no more than the request needs on its own, to the
      pending part, to the end of the block and to the tail. */
  lemma AttachGrows(s: State, i: nat, h: Incoming, incr: nat, align: nat, extra: nat)
    requires Inv(s) && Fits(s) && CanRequest(s, i, h, incr, align, extra) && TryAttach(s, i, incr, align, extra) >= 0
    ensures var p := Placed(s, i, h, incr, align, extra);
      var need := BlkRoundUp(s.bits, incr);
      && s.cut <= |s.blocks| && s.bits == p.bits && s.cut == p.cut
      && Pending(p.bits, p.blocks[p.cut..]) <= Pending(s.bits, s.blocks[s.cut..]) + (if i < s.cut then 0 else need)
      && EndAddr(p.bits, p.blocks[i]) <= EndAddr(s.bits, s.blocks[i]) + need
      && p.tail <= s.tail + (if i < s.cut then need else 0)
  {
    hide RoundUp, BlkRoundUp, Oob, LastFill, Pending, TryAttach, Inv, Fits;
    InvCut(s);
    PrefixOf(s);
    OffsetsBounded(s, i);
    GrowthBound(s.bits, s.blocks[i].off, incr, align);
    AttachCases(s, i, h, incr, align, extra);
    var p := Placed(s, i, h, incr, align, extra);
    if i >= s.cut {
      assert p.blocks[p.cut..] == s.blocks[s.cut..][i - s.cut := p.blocks[i]];
      PendingUpdate(s.bits, s.blocks[s.cut..], i - s.cut, p.blocks[i]);
    } else {
      assert p.blocks[p.cut..] == s.blocks[s.cut..];
    }
  }

  lemma AttachUnder(s: State, i: nat, h: Incoming, incr: nat, align: nat, extra: nat, n: nat)
    requires Inv(s) && Fits(s) && CanRequest(s, i, h, incr, align, extra) && TryAttach(s, i, incr, align, extra) >= 0
    requires Under(s, n)
    ensures Under(Attached(s, i, h, incr, align, extra), n + BlkRoundUp(s.bits, incr))
  {
    hide Inv, Fits, Pending, EndAddr, BlkRoundUp, RoundUp, Oob, TryAttach, CanRequest, UpdateMapped, TouchesTail, Grown;
    RequestInList(s, i, h, incr, align, extra);
    var p := Placed(s, i, h, incr, align, extra);
    UpdateMappedRest(p, i);
    AttachGrows(s, i, h, incr, align, extra);
  }

  lemma {:induction false} MapUnder(s: State, j: nat, n: nat)
    requires Inv(s) && Fits(s) && Under(s, n)
    ensures Under(MapUpto(s, j), n)
    decreases |s.blocks| - s.cut
  {
    hide Inv, Fits, Pending, MapBlock;
    if s.cut <= j && s.cut < |s.blocks| && !Mapped(s.blocks[s.cut]) {
      var m := MapBlock(s, s.cut);
      MapEither(s, s.cut);
      MapBlockFacts(s);
      PendingHead(s);
      assert m.blocks[m.cut..] == s.blocks[s.cut + 1..];
      MapUnder(m, j, n);
    }
  }

  lemma VisitUnder(s: State, i: nat, n: nat)
    requires Inv(s) && Fits(s) && i < |s.blocks| && i <= s.cut && Under(s, n)
    ensures Under(Visited(MapBlock(s, i), i), n)
  {
    hide Inv, Fits, Pending, MapBlock, Visited, BlkRoundUp;
    PrefixOf(s);
    VisitStep(s, i);
    var f := Visited(MapBlock(s, i), i);
    if i < s.cut {
      VisitMapped(s, i, Max(s.tail, EndAddr(s.bits, s.blocks[i])));
      Rests(f.blocks, i + 1, f.cut);
      Rests(s.blocks, i + 1, s.cut);
    } else {
      MapTail(s);
      PendingHead(s);
    }
    forall j | 0 <= j < f.cut ensures EndAddr(f.bits, f.blocks[j]) + Pending(f.bits, f.blocks[f.cut..]) <= n {
      if j < i {
        assert f.blocks[j] == f.blocks[..i][j] == s.blocks[j];
      } else if j > i {
        assert f.blocks[j] == f.blocks[i + 1..][j - i - 1] == s.blocks[j];
      }
    }
  }

  lemma RetireUnder(f: State, i: nat, n: nat)
    requires Inv(f) && Fits(f) && i < f.cut && Under(f, n)
    ensures Under(Retire(f, i), n)
  {
    hide Inv, Fits, Retire, Pending, EndAddr;
    RetireStep(f, i);
    var r := Retire(f, i);
    Rests(r.blocks, i, r.cut);
    Rests(f.blocks, i + 1, f.cut);
    forall j | 0 <= j < r.cut ensures EndAddr(r.bits, r.blocks[j]) + Pending(r.bits, r.blocks[r.cut..]) <= n {
      if j < i {
        assert r.blocks[j] == r.blocks[..i][j] == f.blocks[j];
      } else {
        assert r.blocks[j] == r.blocks[i..][j - i] == f.blocks[j + 1];
      }
    }
  }

  lemma {:induction false} FlushUnder(s: State, i: nat, stop: BufferBlock?, n: nat)
    requires Inv(s) && Fits(s) && i <= s.cut && Under(s, n)
    ensures Under(FlushFrom(s, i, stop).state, n)
    decreases |s.blocks| - i
  {
    hide Inv, Fits, MapBlock, Visited, Retire, Under;
    if i < |s.blocks| && s.blocks[i].ref != stop {
      var hs := s.blocks[i].heads;
      var f := Visited(MapBlock(s, i), i);
      VisitStep(s, i);
      VisitUnder(s, i, n);
      if FirstBusy(hs) == |hs| {
        if Skips(hs) {
          FlushUnder(f, i + 1, stop, n);
        } else {
          InvCut(f);
          RetireStep(f, i);
          RetireUnder(f, i, n);
          FlushUnder(Retire(f, i), i, stop, n);
        }
      }
    }
  }

  lemma SameUnder(s: State, t: State, n: nat)
    requires Under(s, n) && |t.blocks| == |s.blocks| && t.cut == s.cut && t.bits == s.bits && t.tail == s.tail
    requires forall j :: 0 <= j < |s.blocks| ==> t.blocks[j].off == s.blocks[j].off && t.blocks[j].addr == s.blocks[j].addr
    ensures Under(t, n)
  {
    PendingSame(s.bits, s.blocks[s.cut..], t.blocks[t.cut..]);
  }

  lemma FreeUnder(s: State, i: nat, n: nat)
    requires i < |s.blocks| && Under(s, n)
    ensures Under(Free(s, i), n)
    ensures i < s.cut ==> EndAddr(s.bits, s.blocks[i]) + Pending(s.bits, Free(s, i).blocks[Free(s, i).cut..]) <= n
  {
    hide Pending, EndAddr;
    FreeShift(s, i);
    FreePending(s, i);
  }

  lemma DropUnder(s: State, i: nat, k: nat, revoke: bool, n: nat)
    requires Inv(s) && IsHead(s, i, k) && Under(s, n)
    ensures Under(Drop(s, i, k, revoke), n)
  {
    hide Free, Pending;
    PrefixOf(s);
    var m := s.(blocks := s.blocks[i := WithoutHead(s.blocks[i], k)]);
    SameUnder(s, m, n);
    if |s.blocks[i].heads| == 1 {
      FreeUnder(m, i, n);
      FreePending(m, i);
      LowerTailUnder(Free(m, i), Drop(s, i, k, revoke), n);
    }
  }

  lemma LowerTailUnder(s: State, t: State, n: nat)
    requires Under(s, n) && t == s.(meta := t.meta, tail := t.tail) && t.tail <= s.tail
    ensures Under(t, n)
  {
  }

  lemma StepUnder(s: State, st: Step, n: nat)
    requires Inv(s) && Fits(s) && StepOk(s, st) && Under(s, n)
    ensures Under(Apply(s, st), n + StepNeeds(s.bits, st))
  {
    hide Inv, Fits, Under, NewBlock, Attached, MapUpto, FlushFrom, Drop, TryAttach, BlkRoundUp;
    match st
    case New(block, typ) => NewUnder(s, block, typ, n);
    case Attach(i, h, incr, align, extra) =>
      if TryAttach(s, i, incr, align, extra) >= 0 {
        AttachUnder(s, i, h, incr, align, extra, n);
      } else {
        UnderMore(s, n, n + BlkRoundUp(s.bits, incr));
      }
    case MapTo(j) => MapUnder(s, j, n);
    case FlushTo(stop) => FlushUnder(s, 0, stop, n);
    case DropHead(i, k, revoke) => DropUnder(s, i, k, revoke, n);
    case SetOp(i, k, op) => SameUnder(s, WithOp(s, i, k, op), n);
    case WriteTo(i, k, skip, data) => SameUnder(s, Written(s, i, k, skip, data), n);
  }

  lemma UnderMore(s: State, n: nat, m: nat)
    requires Under(s, n) && n <= m
    ensures Under(s, m)
  {
  }

  /** Packing never costs more than separate blocks, in no run at all: the image
      grows by at most every request rounded up on its own, alignment gaps, drops
      and failed requests included. */
  lemma {:induction false} ImageIsBounded(s: State, steps: seq<Step>, n: nat)
    requires Inv(s) && Fits(s) && RunOk(s, steps) && Under(s, n)
    ensures Under(Run(s, steps), n + Needed(s.bits, steps))
    ensures EndOfImage(Run(s, steps)) <= n + Needed(s.bits, steps)
    decreases steps
  {
    hide Inv, Fits, StepOk, Apply, EndOfImage, BlkRoundUp, StepNeeds, Pending, EndAddr;
    if steps == [] {
      EndIs(s);
    } else {
      StepUnder(s, steps[0], n);
      StepInv(s, steps[0]);
      StepBits(s, steps[0]);
      ImageIsBounded(Apply(s, steps[0]), steps[1..], n + StepNeeds(s.bits, steps[0]));
    }
  }

  /** A state in order is bounded by the end of its image. */
  lemma StrictIsUnder(s: State)
    requires StrictlyOrdered(s)
    ensures Under(s, EndOfImage(s))
  {
    EndIs(s);
  }

  // ------------------------------------------------------- metadata blocks

  /** What a step adds to `MetaBlkCnt`: the sizes of the metadata blocks that it
      takes out of the list without giving their address back. */
  ghost function Counted(s: State, st: Step): nat
    requires StepOk(s, st)
  {
    match st
    case New(block, typ) => 0
    case Attach(i, h, incr, align, extra) => 0
    case MapTo(j) => 0
    case FlushTo(stop) => MetaBlocks(s.bits, Reached(s.blocks, stop))
    case DropHead(i, k, revoke) =>
      if |s.blocks[i].heads| == 1 && !Revokes(s, i, revoke) && s.blocks[i].typ != DATA
      then Size(s.bits, s.blocks[i]) else 0
    case SetOp(i, k, op) => 0
    case WriteTo(i, k, skip, data) => 0
  }

  lemma AttachMeta(s: State, i: nat, h: Incoming, incr: nat, align: nat, extra: nat)
    requires i < |s.blocks|
    ensures Attached(s, i, h, incr, align, extra).meta == s.meta
  {
    UpdateMappedRest(Placed(s, i, h, incr, align, extra), i);
  }

  lemma SmallU32(x: nat)
    requires x < TWO_32
    ensures U32(x) == x && U32(x + 0) == x
  {
  }

  lemma DropMeta(s: State, i: nat, k: nat, revoke: bool)
    requires IsHead(s, i, k) && s.meta < TWO_32 && s.cut <= |s.blocks|
    ensures Drop(s, i, k, revoke).meta == U32(s.meta + Counted(s, DropHead(i, k, revoke)))
  {
    hide BlkRoundUp, Free;
    SmallU32(s.meta);
  }

  lemma StepCounts(s: State, st: Step)
    requires Inv(s) && Fits(s) && StepOk(s, st) && s.meta < TWO_32
    ensures Apply(s, st).meta == U32(s.meta + Counted(s, st))
  {
    hide Inv, Fits, Attached, MapUpto, FlushFrom, TryAttach, BlkRoundUp, Drop, U32, MetaBlocks, Reached;
    SmallU32(s.meta);
    match st
    case New(block, typ) =>
    case Attach(i, h, incr, align, extra) => AttachMeta(s, i, h, incr, align, extra);
    case MapTo(j) => MapUptoFacts(s, j);
    case FlushTo(stop) =>
      FlushAccounts(s, 0, stop);
      assert s.blocks[0..] == s.blocks;
    case DropHead(i, k, revoke) => DropMeta(s, i, k, revoke);
    case SetOp(i, k, op) =>
    case WriteTo(i, k, skip, data) =>
  }

  ghost function TotalCounted(s: State, steps: seq<Step>): nat
    requires RunOk(s, steps)
    decreases steps
  {
    if steps == [] then 0 else Counted(s, steps[0]) + TotalCounted(Apply(s, steps[0]), steps[1..])
  }

  /** After any run `MetaBlkCnt` is, modulo 2^32, what its steps retired. */
  lemma {:induction false} RunCounts(s: State, steps: seq<Step>)
    requires Inv(s) && Fits(s) && RunOk(s, steps) && s.meta < TWO_32
    ensures Run(s, steps).meta == U32(s.meta + TotalCounted(s, steps))
    decreases steps
  {
    hide Inv, Fits, StepOk, Apply, Counted;
    if steps != [] {
      StepCounts(s, steps[0]);
      StepInv(s, steps[0]);
      RunCounts(Apply(s, steps[0]), steps[1..]);
      WrapSum(s.meta, Counted(s, steps[0]), TotalCounted(Apply(s, steps[0]), steps[1..]));
    }
  }
}
