/** What is written at the position of a head can be read there for as long as the
    head lives, whatever else happens to the image. */
module LiveData {
  import opened Rounding
  import opened Objects
  import opened Layout
  import opened LayoutInv
  import opened Mapping
  import opened Flushing
  import opened Runs

  /** The step writes to head `r`. */
  predicate Writes(s: State, st: Step, r: BufferHead) {
    st.WriteTo? && IsHead(s, st.wi, st.wk) && s.blocks[st.wi].heads[st.wk].ref == r
  }

  ghost predicate NeverWritten(s: State, steps: seq<Step>, r: BufferHead)
    requires RunOk(s, steps)
    decreases steps
  {
    steps == [] || (!Writes(s, steps[0], r) && NeverWritten(Apply(s, steps[0]), steps[1..], r))
  }

  /** A byte of a head stays a byte of that head. */
  lemma StaysCovered(s: State, i: nat, k: nat, t: State, j: nat, l: nat, x: nat)
    requires SameHead(s, i, k, t, j, l) && t.bits == s.bits && Covers(s, i, k, x)
    ensures Covers(t, j, l, x)
  {
  }

  /** A write to another head does not reach it. */
  lemma WriteSpares(s: State, i: nat, k: nat, skip: nat, data: seq<byte>, j: nat, l: nat, x: nat)
    requires Inv(s) && StepOk(s, WriteTo(i, k, skip, data)) && Covers(s, j, l, x) && (i != j || k != l)
    requires x < |s.dev|
    ensures x < |Written(s, i, k, skip, data).dev| && Written(s, i, k, skip, data).dev[x] == s.dev[x]
  {
    hide Inv;
    var pos := Tell(s, i, k, false) + skip;
    if pos <= x < pos + |data| {
      assert Covers(s, i, k, x);
      HeadsDisjoint(s, i, k, j, l, x);
    }
  }

  lemma MapUptoDev(s: State, j: nat)
    requires Inv(s) && Fits(s)
    ensures MapUpto(s, j).dev == s.dev
  {
    hide Inv, Fits, MapUpto;
    MapUptoFacts(s, j);
  }

  lemma AttachedDev(s: State, i: nat, h: Incoming, incr: nat, align: nat, extra: nat)
    requires i < |s.blocks|
    ensures Attached(s, i, h, incr, align, extra).dev == s.dev
  {
    UpdateMappedRest(Placed(s, i, h, incr, align, extra), i);
  }

  /** No step but a write to the head changes a byte of a mapped head. */
  lemma StepSpares(s: State, st: Step, i: nat, k: nat, x: nat)
    requires Inv(s) && Fits(s) && StepOk(s, st) && Covers(s, i, k, x) && x < |s.dev|
    requires !Writes(s, st, s.blocks[i].heads[k].ref)
    ensures x < |Apply(s, st).dev| && Apply(s, st).dev[x] == s.dev[x]
  {
    hide Inv, Fits, Covers, MapUpto, FlushFrom, Attached, TryAttach, Written;
    match st
    case New(block, typ) =>
    case Attach(ai, h, incr, align, extra) => AttachedDev(s, ai, h, incr, align, extra);
    case MapTo(j) => MapUptoDev(s, j);
    case FlushTo(stop) => FlushKeepsMapped(s, stop, i, k, x);
    case DropHead(di, dk, revoke) =>
    case SetOp(oi, ok, op) =>
    case WriteTo(wi, wk, skip, data) => WriteSpares(s, wi, wk, skip, data, i, k, x);
  }

  lemma OneHead(s: State, i: nat, k: nat, j: nat, l: nat)
    requires Inv(s) && IsHead(s, i, k) && IsHead(s, j, l)
    requires s.blocks[i].heads[k].ref == s.blocks[j].heads[l].ref
    ensures i == j && k == l
  {
  }

  /** Over any run, the bytes of a mapped head change only by a write to it: as
      long as it is there at the end and was not attached anew, no growth, map,
      flush or drop of anything else, and no write to another head, touches one. */
  lemma {:induction false} LiveBytesStay(s: State, steps: seq<Step>, i: nat, k: nat, j: nat, l: nat, x: nat)
    requires Inv(s) && Fits(s) && RunOk(s, steps)
    requires Covers(s, i, k, x) && x < |s.dev| && IsHead(Run(s, steps), j, l)
    requires Run(s, steps).blocks[j].heads[l].ref == s.blocks[i].heads[k].ref
    requires forall st :: st in steps ==> !Issues(st, s.blocks[i].heads[k].ref)
    requires NeverWritten(s, steps, s.blocks[i].heads[k].ref)
    ensures x < |Run(s, steps).dev| && Run(s, steps).dev[x] == s.dev[x] && Covers(Run(s, steps), j, l, x)
    decreases steps
  {
    hide Inv, Fits, StepOk, Apply, Issues, Covers, Writes, SameHead;
    CoversHead(s, i, k, x);
    if steps == [] {
      OneHead(s, i, k, j, l);
    } else {
      var r := s.blocks[i].heads[k].ref;
      var t := Apply(s, steps[0]);
      StepInv(s, steps[0]);
      StepBits(s, steps[0]);
      var m, n := RunOrigin(t, steps[1..], j, l);
      SameRef(t, m, n, Run(t, steps[1..]), j, l);
      assert steps[0] in steps;
      var i', k' := StepOrigin(s, steps[0], m, n);
      SameRef(s, i', k', t, m, n);
      OneHead(s, i, k, i', k');
      StaysCovered(s, i, k, t, m, n, x);
      StepSpares(s, steps[0], i, k, x);
      LiveBytesStay(t, steps[1..], m, n, j, l, x);
    }
  }

  lemma CoversHead(s: State, i: nat, k: nat, x: nat)
    requires Covers(s, i, k, x)
    ensures IsHead(s, i, k)
  {
  }

  lemma SameRef(s: State, i: nat, k: nat, t: State, j: nat, l: nat)
    requires SameHead(s, i, k, t, j, l)
    ensures IsHead(s, i, k) && IsHead(t, j, l) && t.blocks[j].heads[l].ref == s.blocks[i].heads[k].ref
  {
  }

  /** What a write put at the position of a head is read back there at the end of
      any later run that keeps the head and does not write to it again. */
  lemma WrittenIsRead(s: State, i: nat, k: nat, skip: nat, data: seq<byte>, steps: seq<Step>, j: nat, l: nat)
    requires Inv(s) && Fits(s) && StepOk(s, WriteTo(i, k, skip, data)) && RunOk(Written(s, i, k, skip, data), steps)
    requires IsHead(Run(Written(s, i, k, skip, data), steps), j, l)
    requires Run(Written(s, i, k, skip, data), steps).blocks[j].heads[l].ref == s.blocks[i].heads[k].ref
    requires forall st :: st in steps ==> !Issues(st, s.blocks[i].heads[k].ref)
    requires NeverWritten(Written(s, i, k, skip, data), steps, s.blocks[i].heads[k].ref)
    ensures var u := Run(Written(s, i, k, skip, data), steps);
      var pos := Tell(u, j, l, false) + skip;
      pos + |data| <= |u.dev| && u.dev[pos..pos + |data|] == data
  {
    hide Inv, Fits, RunOk, Run, NeverWritten, Issues;
    var t := Written(s, i, k, skip, data);
    var u := Run(t, steps);
    StepInv(s, WriteTo(i, k, skip, data));
    MappedHeadIsPinned(t, steps, i, k, j, l);
    var pos := Tell(s, i, k, false) + skip;
    assert Tell(u, j, l, false) + skip == pos && |t.dev| >= pos + |data|;
    forall m | 0 <= m < |data| ensures pos + m < |u.dev| && u.dev[pos + m] == data[m] {
      assert t.dev[pos + m] == data[m] && Covers(t, i, k, pos + m);
      LiveBytesStay(t, steps, i, k, j, l, pos + m);
    }
    DeviceLength(t, steps);
    assert pos + |data| <= |u.dev|;
  }

  /** And when the image is flushed after that, whether or not the flush drops the
      head, it is there in the result. */
  lemma WrittenReachesImage(s: State, i: nat, k: nat, skip: nat, data: seq<byte>, steps: seq<Step>, j: nat, l: nat,
                            stop: BufferBlock?)
    requires Inv(s) && Fits(s) && StepOk(s, WriteTo(i, k, skip, data)) && RunOk(Written(s, i, k, skip, data), steps)
    requires IsHead(Run(Written(s, i, k, skip, data), steps), j, l)
    requires Run(Written(s, i, k, skip, data), steps).blocks[j].heads[l].ref == s.blocks[i].heads[k].ref
    requires forall st :: st in steps ==> !Issues(st, s.blocks[i].heads[k].ref)
    requires NeverWritten(Written(s, i, k, skip, data), steps, s.blocks[i].heads[k].ref)
    ensures var dev := FlushFrom(Run(Written(s, i, k, skip, data), steps), 0, stop).state.dev;
      var pos := Tell(s, i, k, false) + skip;
      pos + |data| <= |dev| && dev[pos..pos + |data|] == data
  {
    hide Inv, Fits, RunOk, Run, NeverWritten, Issues, FlushFrom;
    var t := Written(s, i, k, skip, data);
    var u := Run(t, steps);
    StepInv(s, WriteTo(i, k, skip, data));
    RunInv(t, steps);
    MappedHeadIsPinned(t, steps, i, k, j, l);
    WrittenIsRead(s, i, k, skip, data, steps, j, l);
    FlushLength(u, 0, stop);
    var pos := Tell(s, i, k, false) + skip;
    var dev := FlushFrom(u, 0, stop).state.dev;
    forall m | 0 <= m < |data| ensures dev[pos + m] == data[m] {
      assert Covers(t, i, k, pos + m);
      LiveBytesStay(t, steps, i, k, j, l, pos + m);
      FlushKeepsMapped(u, stop, j, l, pos + m);
      assert u.dev[pos + m] == u.dev[pos..pos + |data|][m];
    }
  }

  lemma FlushLength(s: State, i: nat, stop: BufferBlock?)
    ensures |FlushFrom(s, i, stop).state.dev| >= |s.dev|
    decreases |s.blocks| - i
  {
    hide Pwrite, Free, UpdateMapped;
    if i < |s.blocks| && s.blocks[i].ref != stop {
      var f := Visited(MapBlock(s, i), i);
      MapDev(s, i);
      RetireLength(f, i);
      FlushLength(f, i + 1, stop);
      FlushLength(Retire(f, i), i, stop);
    }
  }

  lemma MapDev(s: State, i: nat)
    requires i < |s.blocks|
    ensures MapBlock(s, i).dev == s.dev
  {
    if !Mapped(s.blocks[i]) { UpdateMappedRest(Addressed(s, i), i); }
  }

  lemma RetireLength(s: State, i: nat)
    requires i < |s.blocks|
    ensures |Retire(s, i).dev| >= |s.dev| && |Retire(s, i).blocks| == |s.blocks| - 1
  {
    PaddingEnds(s.bits, s.blocks[i].off, s.blocks[i].addr);
  }

  /** The device never gets shorter. */
  lemma {:induction false} DeviceLength(s: State, steps: seq<Step>)
    requires Inv(s) && Fits(s) && RunOk(s, steps)
    ensures |Run(s, steps).dev| >= |s.dev|
    decreases steps
  {
    hide Inv, Fits, StepOk, Apply;
    if steps != [] {
      StepLength(s, steps[0]);
      StepInv(s, steps[0]);
      DeviceLength(Apply(s, steps[0]), steps[1..]);
    }
  }

  lemma StepLength(s: State, st: Step)
    requires Inv(s) && Fits(s) && StepOk(s, st)
    ensures |Apply(s, st).dev| >= |s.dev|
  {
    hide Inv, Fits, MapUpto, FlushFrom, Attached, TryAttach;
    match st
    case New(block, typ) =>
    case Attach(ai, h, incr, align, extra) => AttachedDev(s, ai, h, incr, align, extra);
    case MapTo(j) => MapUptoDev(s, j);
    case FlushTo(stop) => FlushLength(s, 0, stop);
    case DropHead(di, dk, revoke) =>
    case SetOp(oi, ok, op) =>
    case WriteTo(wi, wk, skip, data) =>
  }
}
