/** Whole runs of the buffer manager and its callers: any sequence of allocations,
    attachments, mappings, flushes and drops, of flush operations set and of data
    written at the position of a head, in any order. */
module Runs {
  import opened Rounding
  import opened Objects
  import opened Layout
  import opened LayoutInv
  import opened Mapping
  import opened Flushing

  datatype Step =
    | New(block: BufferBlock, typ: int)
    | Attach(i: nat, h: Incoming, incr: nat, align: nat, extra: nat)
    | MapTo(j: nat)
    | FlushTo(stop: BufferBlock?)
    | DropHead(di: nat, dk: nat, revoke: bool)
    | SetOp(oi: nat, ok: nat, op: HeadOp)
    | WriteTo(wi: nat, wk: nat, skip: nat, data: seq<byte>)

  /** What the source demands before a step, that the last mapped block is in the
      list, and that the image stays small enough for 32-bit block addresses. */
  ghost predicate StepOk(s: State, st: Step) {
    s.cut <= |s.blocks| &&
    match st
    case New(block, typ) => FreshBlock(s, block) && (typ == DATA || typ == META)
    case Attach(i, h, incr, align, extra) =>
      CanRequest(s, i, h, incr, align, extra)
      && (TryAttach(s, i, incr, align, extra) >= 0 ==> Fits(Attached(s, i, h, incr, align, extra)))
    case MapTo(j) => true
    case FlushTo(stop) => true
    case DropHead(i, k, revoke) => IsHead(s, i, k)
    case SetOp(i, k, op) => IsHead(s, i, k)
    case WriteTo(i, k, skip, data) =>
      IsHead(s, i, k) && Mapped(s.blocks[i]) && Tell(s, i, k, false) + skip + |data| <= Tell(s, i, k, true)
  }

  ghost function Apply(s: State, st: Step): State
    requires StepOk(s, st)
  {
    match st
    case New(block, typ) => NewBlock(s, block, typ)
    case Attach(i, h, incr, align, extra) =>
      if TryAttach(s, i, incr, align, extra) < 0 then s else Attached(s, i, h, incr, align, extra)
    case MapTo(j) => MapUpto(s, j)
    case FlushTo(stop) => FlushFrom(s, 0, stop).state
    case DropHead(i, k, revoke) => Drop(s, i, k, revoke)
    case SetOp(i, k, op) => WithOp(s, i, k, op)
    case WriteTo(i, k, skip, data) => Written(s, i, k, skip, data)
  }

  // ------------------------------------------------------------ invariant

  lemma DropFits(s: State, i: nat, k: nat, revoke: bool)
    requires Inv(s) && Fits(s) && IsHead(s, i, k)
    ensures Fits(Drop(s, i, k, revoke))
  {
    var t := s.(blocks := s.blocks[i := WithoutHead(s.blocks[i], k)]);
    FitsSame(s, t);
    SameList(s, t);
    if |s.blocks[i].heads| == 1 {
      FreeFits(t, i);
      FreePending(t, i);
      RevokedFits(Free(t, i), Drop(s, i, k, revoke));
    }
  }

  /** Giving an address back, like counting metadata, leaves room. */
  lemma RevokedFits(s: State, t: State)
    requires Fits(s) && t == s.(meta := t.meta, tail := t.tail) && t.tail <= s.tail
    ensures Fits(t)
  {
  }

  /** Every step keeps the invariant. */
  lemma StepInv(s: State, st: Step)
    requires Inv(s) && Fits(s) && StepOk(s, st)
    ensures Inv(Apply(s, st)) && Fits(Apply(s, st))
  {
    match st
    case New(block, typ) => NewBlockInv(s, block, typ); NewBlockFits(s, block, typ);
    case Attach(i, h, incr, align, extra) =>
      if TryAttach(s, i, incr, align, extra) >= 0 { AttachInv(s, i, h, incr, align, extra); }
    case MapTo(j) => MapUptoInv(s, j);
    case FlushTo(stop) => FlushInv(s, 0, stop);
    case DropHead(i, k, revoke) => DropInv(s, i, k, revoke); DropFits(s, i, k, revoke);
    case SetOp(i, k, op) => WithOpInv(s, i, k, op);
    case WriteTo(i, k, skip, data) => InvSame(s, Written(s, i, k, skip, data)); FitsSame(s, Written(s, i, k, skip, data));
  }

  /** What a drop does in every case. The head leaves its block; a block without heads
      leaves the list, and either the tail goes back to its address, when that is asked
      for and the block ends at the tail, or a metadata block is counted. */
  lemma DropOutcome(s: State, i: nat, k: nat, revoke: bool)
    requires Inv(s) && IsHead(s, i, k)
    ensures var t, b := Drop(s, i, k, revoke), s.blocks[i];
      var size := BlkRoundUp(s.bits, b.off);
      if |b.heads| > 1 then
        && t.blocks == s.blocks[..i] + [b.(heads := b.heads[..k] + b.heads[k + 1..])] + s.blocks[i + 1..]
        && t.tail == s.tail && t.meta == s.meta && t.cut == s.cut
      else
        && t.blocks == s.blocks[..i] + s.blocks[i + 1..]
        && t.cut == s.cut - (if i < s.cut then 1 else 0)
        && if revoke && i < s.cut && s.tail == b.addr + size
           then t.tail == b.addr && t.meta == s.meta
           else t.tail == s.tail && t.meta == if b.typ == META then (s.meta + size) % 0x1_0000_0000 else s.meta
  {
    hide BlkRoundUp;
    PrefixOf(s);
  }

  // ------------------------------------------------- the order of addresses

  /** A drop that gives back the address of a non-empty block which is not the
      last mapped one. Behind it there can only be empty mapped blocks. */
  predicate Misplaces(s: State, i: nat, revoke: bool)
    requires i < |s.blocks|
  {
    |s.blocks[i].heads| == 1 && Revokes(s, i, revoke) && i + 1 < s.cut && Size(s.bits, s.blocks[i]) > 0
  }

  lemma DropStrict(s: State, i: nat, k: nat, revoke: bool)
    requires Inv(s) && StrictlyOrdered(s) && IsHead(s, i, k) && !Misplaces(s, i, revoke)
    ensures StrictlyOrdered(Drop(s, i, k, revoke))
  {
    var t := s.(blocks := s.blocks[i := WithoutHead(s.blocks[i], k)]);
    OrderedByPrefix(s, t);
    if |s.blocks[i].heads| == 1 {
      SameList(s, t);
      FreeOrdered(t, i);
      var u := Drop(s, i, k, revoke);
      if Revokes(s, i, revoke) && Size(s.bits, s.blocks[i]) > 0 {
        FreeShift(t, i);
        assert i == s.cut - 1;
        forall j | 0 <= j < u.cut ensures EndAddr(u.bits, u.blocks[j]) <= u.tail {
          assert u.blocks[j] == t.blocks[j];
        }
      }
    }
  }

  lemma DropBreaks(s: State, i: nat, k: nat, revoke: bool)
    requires Inv(s) && StrictlyOrdered(s) && IsHead(s, i, k) && Misplaces(s, i, revoke)
    ensures !StrictlyOrdered(Drop(s, i, k, revoke))
  {
    var t := s.(blocks := s.blocks[i := WithoutHead(s.blocks[i], k)]);
    var u := Drop(s, i, k, revoke);
    FreeShift(t, i);
    assert u.blocks[i] == s.blocks[i + 1];
    assert EndAddr(u.bits, u.blocks[i]) > u.tail;
  }

  /** `BDrop` keeps all mapped extents, the empty ones included, in ascending
      order below the tail if and only if it does not give back the address of
      a non-empty block that has a mapped block behind it. */
  lemma DropKeepsOrderIff(s: State, i: nat, k: nat, revoke: bool)
    requires Inv(s) && StrictlyOrdered(s) && IsHead(s, i, k)
    ensures StrictlyOrdered(Drop(s, i, k, revoke)) <==> !Misplaces(s, i, revoke)
  {
    if Misplaces(s, i, revoke) {
      DropBreaks(s, i, k, revoke);
    } else {
      DropStrict(s, i, k, revoke);
    }
  }

  predicate NoMisplacing(s: State, st: Step) {
    st.DropHead? && st.di < |s.blocks| ==> !Misplaces(s, st.di, st.revoke)
  }

  lemma StepStrict(s: State, st: Step)
    requires Inv(s) && Fits(s) && StepOk(s, st) && StrictlyOrdered(s) && NoMisplacing(s, st)
    ensures StrictlyOrdered(Apply(s, st))
  {
    match st
    case New(block, typ) => NewBlockInv(s, block, typ);
    case Attach(i, h, incr, align, extra) =>
      if TryAttach(s, i, incr, align, extra) >= 0 { AttachInv(s, i, h, incr, align, extra); }
    case MapTo(j) => MapUptoInv(s, j);
    case FlushTo(stop) => FlushInv(s, 0, stop);
    case DropHead(i, k, revoke) => DropStrict(s, i, k, revoke);
    case SetOp(i, k, op) => WithOpInv(s, i, k, op);
    case WriteTo(i, k, skip, data) => InvSame(s, Written(s, i, k, skip, data));
  }

  // ------------------------------------------------------------------ runs

  ghost predicate RunOk(s: State, steps: seq<Step>)
    decreases steps
  {
    steps == [] || (StepOk(s, steps[0]) && RunOk(Apply(s, steps[0]), steps[1..]))
  }

  ghost function Run(s: State, steps: seq<Step>): State
    requires RunOk(s, steps)
    decreases steps
  {
    if steps == [] then s else Run(Apply(s, steps[0]), steps[1..])
  }

  /** Every reachable state satisfies the invariant. */
  lemma {:induction false} RunInv(s: State, steps: seq<Step>)
    requires Inv(s) && Fits(s) && RunOk(s, steps)
    ensures Inv(Run(s, steps)) && Fits(Run(s, steps))
    decreases steps
  {
    hide Inv, Fits, StepOk, Apply;
    if steps != [] {
      StepInv(s, steps[0]);
      RunInv(Apply(s, steps[0]), steps[1..]);
    }
  }

  ghost predicate NeverMisplaces(s: State, steps: seq<Step>)
    requires RunOk(s, steps)
    decreases steps
  {
    steps == [] || (NoMisplacing(s, steps[0]) && NeverMisplaces(Apply(s, steps[0]), steps[1..]))
  }

  /** In every state reached without a misplacing drop the mapped blocks form a
      prefix of the list, all their extents ascend, and the tail bounds them. */
  lemma {:induction false} RunStrict(s: State, steps: seq<Step>)
    requires Inv(s) && Fits(s) && StrictlyOrdered(s) && RunOk(s, steps) && NeverMisplaces(s, steps)
    ensures Prefix(Run(s, steps)) && StrictlyOrdered(Run(s, steps))
    decreases steps
  {
    RunInv(s, steps);
    if steps != [] {
      StepInv(s, steps[0]);
      StepStrict(s, steps[0]);
      RunStrict(Apply(s, steps[0]), steps[1..]);
    }
  }

  // ----------------------------------------------------- heads stay in place

  /** Head `l` of block `j` in `t` is head `k` of block `i` in `s`: same object,
      same block, same offset, the same address once there was one, and an end
      that is not before the one it had. */
  predicate SameHead(s: State, i: nat, k: nat, t: State, j: nat, l: nat) {
    && IsHead(s, i, k) && IsHead(t, j, l)
    && t.blocks[j].ref == s.blocks[i].ref
    && t.blocks[j].heads[l].ref == s.blocks[i].heads[k].ref
    && t.blocks[j].heads[l].off == s.blocks[i].heads[k].off
    && (Mapped(s.blocks[i]) ==> t.blocks[j].addr == s.blocks[i].addr)
    && TellOff(s.blocks[i], k, true) <= TellOff(t.blocks[j], l, true)
  }

  lemma VisitOrigin(s: State, i: nat, j: nat, l: nat) returns (k: nat)
    requires i < |s.blocks| && AllSorted(s) && IsHead(Visited(s, i), j, l)
    ensures SameHead(s, j, k, Visited(s, i), j, l)
  {
    hide Kept, FirstBusy;
    k := l;
    if j == i {
      var f := VisitThins(s.blocks[i].heads);
      k := f[l];
      ThinnedTell(s.blocks[i], Visited(s, i).blocks[i], f, l);
    }
  }

  /** A head in a thinned list ends no earlier: at the next head that is left, or
      at the end of the data. */
  lemma ThinnedTell(b: BlockV, c: BlockV, f: seq<nat>, l: nat)
    requires HeadsSorted(b) && c.off == b.off && Thinned(c.heads, b.heads, f) && l < |c.heads|
    ensures TellOff(b, f[l], true) <= TellOff(c, l, true)
  {
  }

  lemma RetireOrigin(f: State, i: nat, j: nat, l: nat) returns (j': nat)
    requires i < |f.blocks| && IsHead(Retire(f, i), j, l)
    ensures SameHead(f, j', l, Retire(f, i), j, l)
  {
    FreeShift(f, i);
    j' := if j < i then j else j + 1;
  }

  lemma MapOrigin(s: State, i: nat, j: nat, l: nat)
    requires Inv(s) && Fits(s) && i < |s.blocks| && i <= s.cut && IsHead(MapBlock(s, i), j, l)
    ensures SameHead(s, j, l, MapBlock(s, i), j, l)
  {
    hide Inv, Fits, MapBlock;
    PrefixOf(s);
    MapEither(s, i);
  }

  lemma {:induction false} FlushOrigin(s: State, i: nat, stop: BufferBlock?, j: nat, l: nat) returns (i0: nat, k0: nat)
    requires Inv(s) && Fits(s) && i <= s.cut && IsHead(FlushFrom(s, i, stop).state, j, l)
    ensures SameHead(s, i0, k0, FlushFrom(s, i, stop).state, j, l)
    decreases |s.blocks| - i
  {
    hide Inv, Fits, MapBlock, Visited, Retire;
    i0, k0 := j, l;
    if i < |s.blocks| && s.blocks[i].ref != stop {
      var hs := s.blocks[i].heads;
      var m := MapBlock(s, i);
      var f := Visited(m, i);
      VisitStep(s, i);
      if FirstBusy(hs) < |hs| {
      } else if Skips(hs) {
        i0, k0 := FlushOrigin(f, i + 1, stop, j, l);
      } else {
        InvCut(f);
        RetireStep(f, i);
        i0, k0 := FlushOrigin(Retire(f, i), i, stop, j, l);
        i0 := RetireOrigin(f, i, i0, k0);
      }
      MapEither(s, i);
      InvSorted(m);
      k0 := VisitOrigin(m, i, i0, k0);
      MapOrigin(s, i, i0, k0);
    }
  }

  /** A block that grows moves the end of none of its heads back. */
  lemma GrownTell(b: BlockV, h: Incoming, incr: nat, align: nat, l: nat)
    requires align > 0 && l < |b.heads|
    ensures |Grown(b, h, incr, align).heads| >= |b.heads| && Grown(b, h, incr, align).heads[l] == b.heads[l]
    ensures TellOff(b, l, true) <= TellOff(Grown(b, h, incr, align), l, true)
  {
    RoundUpLeast(b.off, align);
  }

  lemma AttachOrigin(s: State, i: nat, h: Incoming, incr: nat, align: nat, extra: nat, j: nat, l: nat)
    requires i < |s.blocks| && align > 0 && IsHead(Attached(s, i, h, incr, align, extra), j, l)
    requires h.Fresh? ==> Attached(s, i, h, incr, align, extra).blocks[j].heads[l].ref != h.ref
    ensures SameHead(s, j, l, Attached(s, i, h, incr, align, extra), j, l)
  {
    hide RoundUp, Oob, BlkRoundUp, UpdateMapped, TellOff, Grown;
    var p := Placed(s, i, h, incr, align, extra);
    UpdateMappedRest(p, i);
    OldOrNew(s, i, h, incr, align, extra, j, l);
    if j == i {
      GrownTell(s.blocks[i], h, incr, align, l);
      GrownIs(s.blocks[i], h, incr, align);
    }
  }

  lemma GrownIs(b: BlockV, h: Incoming, incr: nat, align: nat)
    ensures Grown(b, h, incr, align).ref == b.ref && Grown(b, h, incr, align).addr == b.addr
  {
  }

  lemma DropOrigin(s: State, i: nat, k: nat, revoke: bool, j: nat, l: nat) returns (i0: nat, k0: nat)
    requires AllSorted(s) && IsHead(s, i, k) && IsHead(Drop(s, i, k, revoke), j, l)
    ensures SameHead(s, i0, k0, Drop(s, i, k, revoke), j, l)
  {
    var b, c := s.blocks[i], WithoutHead(s.blocks[i], k);
    var t := s.(blocks := s.blocks[i := c]);
    if |b.heads| > 1 {
      i0, k0 := j, if j == i && l >= k then l + 1 else l;
      if j == i {
        ThinnedTell(b, c, seq(|c.heads|, m requires 0 <= m < |c.heads| => if m < k then m else m + 1), l);
      }
    } else {
      FreeShift(t, i);
      i0, k0 := if j < i then j else j + 1, l;
      assert Drop(s, i, k, revoke).blocks[j] == t.blocks[i0];
    }
  }

  lemma NewOrigin(s: State, block: BufferBlock, typ: int, j: nat, l: nat) returns (i: nat)
    requires s.cut <= |s.blocks| && IsHead(NewBlock(s, block, typ), j, l)
    ensures SameHead(s, i, l, NewBlock(s, block, typ), j, l)
  {
    NewBlockBlocks(s, block, typ);
    i := if j < (if typ == DATA then s.cut else |s.blocks|) then j else j - 1;
  }

  lemma MapUptoOrigin(s: State, m: nat, j: nat, l: nat)
    requires Inv(s) && Fits(s) && IsHead(MapUpto(s, m), j, l)
    ensures SameHead(s, j, l, MapUpto(s, m), j, l)
  {
    hide Inv, Fits, MapUpto;
    PrefixOf(s);
    MapUptoFacts(s, m);
  }

  lemma WithOpOrigin(s: State, i: nat, k: nat, op: HeadOp, j: nat, l: nat)
    requires IsHead(s, i, k) && IsHead(WithOp(s, i, k, op), j, l)
    ensures SameHead(s, j, l, WithOp(s, i, k, op), j, l)
  {
  }

  predicate Issues(st: Step, r: BufferHead) { st.Attach? && st.h.Fresh? && st.h.ref == r }

  /** Every head after a step is the one just attached, or was there before in
      the same place. */
  lemma StepOrigin(s: State, st: Step, j: nat, l: nat) returns (i: nat, k: nat)
    requires Inv(s) && Fits(s) && StepOk(s, st) && IsHead(Apply(s, st), j, l)
    requires !Issues(st, Apply(s, st).blocks[j].heads[l].ref)
    ensures SameHead(s, i, k, Apply(s, st), j, l)
  {
    hide Inv, Fits, NewBlock, Attached, MapUpto, FlushFrom, Drop, WithOp, TryAttach, TellOff;
    i, k := j, l;
    InvSorted(s);
    match st {
      case New(block, typ) => i := NewOrigin(s, block, typ, j, l);
      case Attach(ai, h, incr, align, extra) =>
        if TryAttach(s, ai, incr, align, extra) >= 0 { AttachOrigin(s, ai, h, incr, align, extra, j, l); }
      case MapTo(m) => MapUptoOrigin(s, m, j, l);
      case FlushTo(stop) => i, k := FlushOrigin(s, 0, stop, j, l);
      case DropHead(di, dk, revoke) => i, k := DropOrigin(s, di, dk, revoke, j, l);
      case SetOp(oi, ok, op) => WithOpOrigin(s, oi, ok, op, j, l);
      case WriteTo(wi, wk, skip, data) =>
    }
  }

  lemma {:induction false} RunOrigin(s: State, steps: seq<Step>, j: nat, l: nat) returns (i: nat, k: nat)
    requires Inv(s) && Fits(s) && RunOk(s, steps) && IsHead(Run(s, steps), j, l)
    requires forall st :: st in steps ==> !Issues(st, Run(s, steps).blocks[j].heads[l].ref)
    ensures SameHead(s, i, k, Run(s, steps), j, l)
    decreases steps
  {
    hide Inv, Fits, StepOk, Apply, Issues;
    i, k := j, l;
    if steps != [] {
      StepInv(s, steps[0]);
      var m, n := RunOrigin(Apply(s, steps[0]), steps[1..], j, l);
      i, k := StepOrigin(s, steps[0], m, n);
    }
  }

  /** The start of a mapped head never changes in any later run, whatever else
      is allocated, attached, mapped, flushed or dropped. New heads are new
      objects, so no step attaches the head again. */
  lemma MappedHeadIsPinned(s: State, steps: seq<Step>, i: nat, k: nat, j: nat, l: nat)
    requires Inv(s) && Fits(s) && RunOk(s, steps)
    requires IsHead(s, i, k) && Mapped(s.blocks[i]) && IsHead(Run(s, steps), j, l)
    requires Run(s, steps).blocks[j].heads[l].ref == s.blocks[i].heads[k].ref
    requires forall st :: st in steps ==> !Issues(st, s.blocks[i].heads[k].ref)
    ensures Run(s, steps).blocks[j].ref == s.blocks[i].ref
    ensures Run(s, steps).bits == s.bits
    ensures Tell(Run(s, steps), j, l, false) == Tell(s, i, k, false)
  {
    var m, n := RunOrigin(s, steps, j, l);
    assert IsHead(s, m, n);
    RunBits(s, steps);
  }

  lemma StepBits(s: State, st: Step)
    requires Inv(s) && Fits(s) && StepOk(s, st)
    ensures Apply(s, st).bits == s.bits
  {
    match st
    case New(block, typ) =>
    case Attach(i, h, incr, align, extra) =>
    case MapTo(j) => MapUptoFacts(s, j);
    case FlushTo(stop) => FlushBits(s, 0, stop);
    case DropHead(i, k, revoke) =>
    case SetOp(i, k, op) =>
    case WriteTo(i, k, skip, data) =>
  }

  lemma {:induction false} FlushBits(s: State, i: nat, stop: BufferBlock?)
    requires Inv(s) && Fits(s) && i <= s.cut
    ensures FlushFrom(s, i, stop).state.bits == s.bits
    decreases |s.blocks| - i
  {
    hide Inv, Fits, MapBlock, Visited, Retire;
    if i < |s.blocks| && s.blocks[i].ref != stop {
      var f := Visited(MapBlock(s, i), i);
      VisitStep(s, i);
      InvCut(f);
      RetireStep(f, i);
      FlushBits(f, i + 1, stop);
      FlushBits(Retire(f, i), i, stop);
    }
  }

  lemma {:induction false} RunBits(s: State, steps: seq<Step>)
    requires Inv(s) && Fits(s) && RunOk(s, steps)
    ensures Run(s, steps).bits == s.bits
    decreases steps
  {
    hide Inv, Fits, StepOk, Apply;
    if steps != [] {
      StepBits(s, steps[0]);
      StepInv(s, steps[0]);
      RunBits(Apply(s, steps[0]), steps[1..]);
    }
  }

  lemma AttachedOffset(s: State, st: Step, i: nat, k: nat)
    requires Inv(s) && StepOk(s, st) && st.Attach? && st.h.Fresh?
    requires TryAttach(s, st.i, st.incr, st.align, st.extra) >= 0
    requires IsHead(Apply(s, st), i, k) && Apply(s, st).blocks[i].heads[k].ref == st.h.ref
    ensures i == st.i && k == |s.blocks[i].heads|
    ensures Apply(s, st).blocks[i].heads[k].off == RoundUp(s.blocks[i].off, st.align)
    ensures Apply(s, st).blocks[i].heads[k].off % st.align == 0
  {
    OldOrNew(s, st.i, st.h, st.incr, st.align, st.extra, i, k);
    RoundUpLeast(s.blocks[st.i].off, st.align);
  }

  lemma AlignedSum(addr: nat, off: nat, align: nat, b: nat)
    requires b > 0 && Divides(align, b) && off % align == 0
    ensures (addr * b + off) % align == 0
  {
    MultipleOfDivisor(addr, align, b);
    SumOfMultiples(addr * b, off, align);
  }

  /** A head starts at a multiple of the alignment of its request, in the image
      as well as in its block, in every state of every run after the attach. */
  lemma HeadsAreAligned(s: State, st: Step, steps: seq<Step>, j: nat, l: nat)
    requires Inv(s) && Fits(s) && StepOk(s, st) && st.Attach? && st.h.Fresh?
    requires TryAttach(s, st.i, st.incr, st.align, st.extra) >= 0
    requires RunOk(Apply(s, st), steps) && IsHead(Run(Apply(s, st), steps), j, l)
    requires Run(Apply(s, st), steps).blocks[j].heads[l].ref == st.h.ref
    requires forall x :: x in steps ==> !Issues(x, st.h.ref)
    requires Mapped(Run(Apply(s, st), steps).blocks[j])
    ensures Tell(Run(Apply(s, st), steps), j, l, false) % st.align == 0
  {
    hide Inv, Fits, Apply;
    var t := Apply(s, st);
    var u := Run(t, steps);
    StepInv(s, st);
    var i, k := RunOrigin(t, steps, j, l);
    AttachedOffset(s, st, i, k);
    RunBits(t, steps);
    StepBits(s, st);
    AlignedSum(u.blocks[j].addr, u.blocks[j].heads[l].off, st.align, BlkSiz(u));
  }

  // --------------------------------------------------------- the superblock

  /** Size of everything up to the end of the superblock. */
  const SUPER_END: nat := 1152

  /** Head `sup` is the first of the first block, at byte zero of the image, and
      nothing else in its block starts below the end of the superblock. */
  ghost predicate Reserved(s: State, sup: BufferHead) {
    && 0 < s.cut <= |s.blocks| && IsHead(s, 0, 0)
    && s.blocks[0].addr == 0 && s.blocks[0].off >= SUPER_END
    && s.blocks[0].heads[0] == HeadV(sup, 0, SkipWrite)
    && forall k :: 0 < k < |s.blocks[0].heads| ==> s.blocks[0].heads[k].off >= SUPER_END
  }

  /** Only a step that drops the superblock head, or lets a flush drop it, ends
      the reservation. */
  predicate KeepsFirst(st: Step) {
    && (st.DropHead? ==> st.di != 0 || st.dk != 0)
    && (st.SetOp? ==> st.oi != 0 || st.ok != 0 || st.op == SkipWrite)
  }

  lemma VisitReserved(s: State, i: nat, sup: BufferHead)
    requires Reserved(s, sup) && i < |s.blocks|
    ensures Reserved(Visited(s, i), sup)
  {
    if i == 0 {
      var hs := s.blocks[0].heads;
      var n := FirstBusy(hs);
      var f := VisitThins(hs);
      assert n > 0 && hs[..n][0] == hs[0];
      assert (Kept(hs[..n]) + hs[n..])[0] == hs[0];
    }
  }

  lemma MapReserved(s: State, i: nat, sup: BufferHead)
    requires Inv(s) && Fits(s) && i < |s.blocks| && i <= s.cut && Reserved(s, sup)
    ensures Reserved(MapBlock(s, i), sup)
  {
    hide Inv, Fits;
    MapEither(s, i);
  }

  lemma RetireReserved(f: State, i: nat, sup: BufferHead)
    requires 0 < i < f.cut && Reserved(f, sup)
    ensures Reserved(Retire(f, i), sup)
  {
    FreeShift(f, i);
    assert Retire(f, i).blocks[0] == f.blocks[0];
  }

  lemma ReservedSkips(s: State, sup: BufferHead)
    requires Reserved(s, sup)
    ensures |s.blocks| > 0 && Skips(s.blocks[0].heads)
  {
  }

  lemma {:induction false} FlushReserved(s: State, i: nat, stop: BufferBlock?, sup: BufferHead)
    requires Inv(s) && Fits(s) && i <= s.cut && Reserved(s, sup)
    ensures Reserved(FlushFrom(s, i, stop).state, sup)
    decreases |s.blocks| - i
  {
    hide Inv, Fits, MapBlock, Visited, Retire, Reserved, Skips;
    if i < |s.blocks| && s.blocks[i].ref != stop {
      var hs := s.blocks[i].heads;
      var m := MapBlock(s, i);
      var f := Visited(m, i);
      MapReserved(s, i, sup);
      VisitReserved(m, i, sup);
      ReservedSkips(s, sup);
      VisitStep(s, i);
      if FirstBusy(hs) == |hs| {
        if Skips(hs) {
          FlushReserved(f, i + 1, stop, sup);
        } else {
          RetireStep(f, i);
          RetireReserved(f, i, sup);
          FlushReserved(Retire(f, i), i, stop, sup);
        }
      }
    }
  }

  lemma AttachReserved(s: State, i: nat, h: Incoming, incr: nat, align: nat, extra: nat, sup: BufferHead)
    requires Inv(s) && CanRequest(s, i, h, incr, align, extra) && Reserved(s, sup)
    ensures Reserved(Attached(s, i, h, incr, align, extra), sup)
  {
    hide Inv, RoundUp, Oob, BlkRoundUp, UpdateMapped;
    RoundUpLeast(s.blocks[i].off, align);
    UpdateMappedRest(Placed(s, i, h, incr, align, extra), i);
  }

  lemma DropReserved(s: State, i: nat, k: nat, revoke: bool, sup: BufferHead)
    requires Inv(s) && IsHead(s, i, k) && (i != 0 || k != 0) && Reserved(s, sup)
    ensures Reserved(Drop(s, i, k, revoke), sup)
  {
    hide Inv, UnlinkAll, BlkRoundUp, U32;
    PrefixOf(s);
    var t := s.(blocks := s.blocks[i := WithoutHead(s.blocks[i], k)]);
    if |s.blocks[i].heads| == 1 {
      FreeShift(t, i);
      assert Drop(s, i, k, revoke).blocks[0] == t.blocks[0];
    }
  }

  lemma NewReserved(s: State, block: BufferBlock, typ: int, sup: BufferHead)
    requires Reserved(s, sup)
    ensures Reserved(NewBlock(s, block, typ), sup)
  {
    NewBlockBlocks(s, block, typ);
  }

  lemma MapUptoReserved(s: State, j: nat, sup: BufferHead)
    requires Inv(s) && Fits(s) && Reserved(s, sup)
    ensures Reserved(MapUpto(s, j), sup)
  {
    hide Inv, Fits, MapUpto;
    MapUptoFacts(s, j);
    InvCut(s);
  }

  lemma SetOpReserved(s: State, i: nat, k: nat, op: HeadOp, sup: BufferHead)
    requires IsHead(s, i, k) && (i != 0 || k != 0 || op == SkipWrite) && Reserved(s, sup)
    ensures Reserved(WithOp(s, i, k, op), sup)
  {
  }

  lemma WrittenReserved(s: State, i: nat, k: nat, skip: nat, data: seq<byte>, sup: BufferHead)
    requires IsHead(s, i, k) && Reserved(s, sup)
    ensures Reserved(Written(s, i, k, skip, data), sup)
  {
  }

  lemma StepReserved(s: State, st: Step, sup: BufferHead)
    requires Inv(s) && Fits(s) && StepOk(s, st) && Reserved(s, sup) && KeepsFirst(st)
    ensures Reserved(Apply(s, st), sup)
  {
    hide Inv, Fits, Reserved, NewBlock, MapUpto, Drop, FlushFrom, Attached, TryAttach, IsHead, CanRequest, WithOp, Written;
    match st
    case New(block, typ) => NewReserved(s, block, typ, sup);
    case Attach(i, h, incr, align, extra) => AttachReserved(s, i, h, incr, align, extra, sup);
    case MapTo(j) => MapUptoReserved(s, j, sup);
    case FlushTo(stop) => FlushReserved(s, 0, stop, sup);
    case DropHead(i, k, revoke) => DropReserved(s, i, k, revoke, sup);
    case SetOp(i, k, op) => SetOpReserved(s, i, k, op, sup);
    case WriteTo(i, k, skip, data) => WrittenReserved(s, i, k, skip, data, sup);
  }

  /** The superblock reserved at byte zero stays there through every run that
      does not drop it, flushes included, and no other head gets a byte of it. */
  lemma {:induction false} SuperblockStaysPinned(s: State, steps: seq<Step>, sup: BufferHead)
    requires Inv(s) && Fits(s) && RunOk(s, steps) && Reserved(s, sup)
    requires forall st :: st in steps ==> KeepsFirst(st)
    ensures Reserved(Run(s, steps), sup)
    ensures Tell(Run(s, steps), 0, 0, false) == 0 && Tell(Run(s, steps), 0, 0, true) >= 1152
    ensures forall i: nat, k: nat, x: nat :: Covers(Run(s, steps), i, k, x) && x < 1152 ==> i == 0 && k == 0
    decreases steps
  {
    if steps == [] {
      forall i: nat, k: nat, x: nat | Covers(s, i, k, x) && x < 1152 ensures i == 0 && k == 0 {
        assert Covers(s, 0, 0, x);
        HeadsDisjoint(s, 0, 0, i, k, x);
      }
    } else {
      StepInv(s, steps[0]);
      StepReserved(s, steps[0], sup);
      SuperblockStaysPinned(Apply(s, steps[0]), steps[1..], sup);
    }
  }
}
