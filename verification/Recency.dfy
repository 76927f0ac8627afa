/** The order inside the buckets: a bucket lists its blocks in the order of their last
    update, so that of equally filled blocks the search meets the one first that was
    left alone the longest. */
module Recency {
  import opened Rounding
  import opened Objects
  import opened Layout
  import opened LayoutInv
  import opened Mapping
  import opened Flushing
  import opened Placement
  import opened Runs
  import opened Reachable

  /** Position of the last entry for a block in a log of updates, or -1. */
  function Last(log: seq<BufferBlock>, r: BufferBlock): (i: int)
    ensures -1 <= i < |log|
    ensures i >= 0 ==> log[i] == r
    ensures forall j :: i < j < |log| ==> log[j] != r
    decreases |log|
  {
    if log == [] then -1
    else if log[|log| - 1] == r then |log| - 1
    else Last(log[..|log| - 1], r)
  }

  ghost predicate Ascending(log: seq<BufferBlock>, q: seq<BufferBlock>) {
    forall x, y :: 0 <= x < y < |q| ==> Last(log, q[x]) < Last(log, q[y])
  }

  ghost predicate ByRecency(m: map<Key, seq<BufferBlock>>, log: seq<BufferBlock>) {
    forall k :: k in m ==> Ascending(log, m[k])
  }

  lemma LastSnoc(log: seq<BufferBlock>, r: BufferBlock, x: BufferBlock)
    ensures Last(log + [r], x) == if x == r then |log| else Last(log, x)
  {
    assert (log + [r])[..|log|] == log;
  }

  lemma {:induction false} UnlinkSelects(q: seq<BufferBlock>, r: BufferBlock, x: nat)
    requires x < |Unlink(q, r)|
    ensures Unlink(q, r)[x] in q
  {
    if q[0] == r {
      UnlinkSelects(q[1..], r, x);
    } else if x > 0 {
      UnlinkSelects(q[1..], r, x - 1);
    }
  }

  lemma {:induction false} UnlinkAscends(log: seq<BufferBlock>, q: seq<BufferBlock>, r: BufferBlock)
    requires Ascending(log, q)
    ensures Ascending(log, Unlink(q, r))
  {
    hide Last;
    if q != [] {
      assert forall x :: 0 <= x < |q[1..]| ==> q[1..][x] == q[x + 1];
      UnlinkAscends(log, q[1..], r);
      var u := Unlink(q[1..], r);
      forall x | 0 <= x < |u| ensures Last(log, q[0]) < Last(log, u[x]) {
        UnlinkSelects(q[1..], r, x);
      }
    }
  }

  lemma SnocAscends(log: seq<BufferBlock>, q: seq<BufferBlock>, r: BufferBlock)
    requires Ascending(log, q) && r !in q
    ensures Ascending(log + [r], q) && Ascending(log + [r], q + [r])
  {
    hide Last;
    forall x | x in q + [r] ensures Last(log + [r], x) == if x == r then |log| else Last(log, x) { LastSnoc(log, r, x); }
    forall x | x in q ensures Last(log, x) < |log| { LastBound(log, x); }
  }

  lemma LastBound(log: seq<BufferBlock>, r: BufferBlock)
    ensures Last(log, r) < |log|
  {
  }

  /** `BupdateMapped` on a mapped block is an update of it. */
  lemma UpdateByRecency(s: State, i: nat, log: seq<BufferBlock>)
    requires i < |s.blocks| && KeyOf(s.bits, s.blocks[i]) in s.buckets && Mapped(s.blocks[i]) && ByRecency(s.buckets, log)
    ensures ByRecency(UpdateMapped(s, i).buckets, log + [s.blocks[i].ref])
  {
    hide Last, Ascending, UnlinkAll, KeyOf;
    var r, m := s.blocks[i].ref, UnlinkAll(s.buckets, s.blocks[i].ref);
    forall k | k in s.buckets
      ensures k in m && Ascending(log + [r], m[k]) && Ascending(log + [r], m[k] + [r])
    {
      UnlinkAllIs(s.buckets, r, k);
      UnlinkContents(s.buckets[k], r);
      UnlinkAscends(log, s.buckets[k], r);
      SnocAscends(log, m[k], r);
    }
    UnlinkAllKeys(s.buckets, r);
  }

  lemma UnlinkAllIs(m: map<Key, seq<BufferBlock>>, r: BufferBlock, k: Key)
    requires k in m
    ensures k in UnlinkAll(m, r) && UnlinkAll(m, r)[k] == Unlink(m[k], r)
  {
  }

  lemma UnlinkAllKeys(m: map<Key, seq<BufferBlock>>, r: BufferBlock)
    ensures forall k :: k in UnlinkAll(m, r) ==> k in m
  {
  }

  lemma FreeByRecency(s: State, i: nat, log: seq<BufferBlock>)
    requires i < |s.blocks| && ByRecency(s.buckets, log)
    ensures ByRecency(Free(s, i).buckets, log)
  {
    hide Ascending, UnlinkAll;
    forall k | k in Free(s, i).buckets ensures Ascending(log, Free(s, i).buckets[k]) {
      UnlinkAllKeys(s.buckets, s.blocks[i].ref);
      UnlinkAllIs(s.buckets, s.blocks[i].ref, k);
      UnlinkAscends(log, s.buckets[k], s.blocks[i].ref);
    }
  }

  lemma NoneFurther(log: seq<BufferBlock>)
    ensures log + [] == log
  {
  }

  /** The update of a block that is mapped and just got its key. */
  lemma AttachByRecency(s: State, i: nat, h: Incoming, incr: nat, align: nat, extra: nat, log: seq<BufferBlock>)
    requires Inv(s) && CanRequest(s, i, h, incr, align, extra) && ByRecency(s.buckets, log)
    ensures i < |s.blocks|
    ensures ByRecency(Attached(s, i, h, incr, align, extra).buckets, log + if Mapped(s.blocks[i]) then [s.blocks[i].ref] else [])
  {
    hide Inv, Ascending, ByRecency, RoundUp, Oob, BlkRoundUp, FreshHead;
    NoneFurther(log);
    var p := Placed(s, i, h, incr, align, extra);
    if Mapped(s.blocks[i]) {
      KeysOfBlocks(s, i);
      KeyIsKey(p.bits, p.blocks[i]);
      UpdateByRecency(p, i, log);
    }
  }

  lemma KeysOfBlocks(s: State, i: nat)
    requires Inv(s) && i < |s.blocks|
    ensures ValidBits(s.bits) && (s.blocks[i].typ == DATA || s.blocks[i].typ == META)
    ensures forall k :: k in s.buckets <==> IsKey(k)
  {
  }

  lemma MapByRecency(s: State, i: nat, log: seq<BufferBlock>)
    requires Inv(s) && Fits(s) && i < |s.blocks| && i <= s.cut && ByRecency(s.buckets, log)
    ensures ByRecency(MapBlock(s, i).buckets, log + if Mapped(s.blocks[i]) then [] else [s.blocks[i].ref])
  {
    hide Inv, Fits, Ascending, ByRecency, BlkRoundUp;
    NoneFurther(log);
    if !Mapped(s.blocks[i]) {
      TailBounded(s);
      var a := Addressed(s, i);
      KeysOfBlocks(s, i);
      KeyIsKey(a.bits, a.blocks[i]);
      UpdateByRecency(a, i, log);
    }
  }

  // ----------------------------------------------------------- the updates

  function Refs(bs: seq<BlockV>): seq<BufferBlock> {
    if bs == [] then [] else [bs[0].ref] + Refs(bs[1..])
  }

  /** The blocks that a flush maps: those it visits that have no address. */
  function FlushUpdates(bs: seq<BlockV>, stop: BufferBlock?): seq<BufferBlock> {
    if bs == [] || bs[0].ref == stop then []
    else
      (if Mapped(bs[0]) then [] else [bs[0].ref])
      + if FirstBusy(bs[0].heads) < |bs[0].heads| then [] else FlushUpdates(bs[1..], stop)
  }

  /** The blocks a step updates, in order: a mapped block that a request is attached to,
      and every block that is mapped. */
  ghost function Updates(s: State, st: Step): seq<BufferBlock>
    requires StepOk(s, st)
  {
    match st
    case New(block, typ) => []
    case Attach(i, h, incr, align, extra) =>
      if TryAttach(s, i, incr, align, extra) >= 0 && Mapped(s.blocks[i]) then [s.blocks[i].ref] else []
    case MapTo(j) => if j < s.cut then [] else Refs(s.blocks[s.cut..CutAfter(s, j)])
    case FlushTo(stop) => FlushUpdates(s.blocks, stop)
    case DropHead(i, k, revoke) => []
    case SetOp(i, k, op) => []
    case WriteTo(i, k, skip, data) => []
  }

  lemma {:induction false} MapUptoByRecency(s: State, j: nat, log: seq<BufferBlock>)
    requires Inv(s) && Fits(s) && s.cut <= |s.blocks| && ByRecency(s.buckets, log)
    ensures s.cut <= CutAfter(s, j) <= |s.blocks|
    ensures ByRecency(MapUpto(s, j).buckets, log + Refs(s.blocks[s.cut..CutAfter(s, j)]))
    decreases |s.blocks| - s.cut
  {
    hide Inv, Fits, MapBlock, ByRecency;
    if s.cut <= j && s.cut < |s.blocks| {
      PrefixOf(s);
      MapEither(s, s.cut);
      MapByRecency(s, s.cut, log);
      var m, r := MapBlock(s, s.cut), s.blocks[s.cut].ref;
      MapUptoByRecency(m, j, log + [r]);
      assert m.blocks[m.cut..CutAfter(m, j)] == s.blocks[s.cut..CutAfter(s, j)][1..];
      assert log + Refs(s.blocks[s.cut..CutAfter(s, j)]) == log + [r] + Refs(m.blocks[m.cut..CutAfter(m, j)]);
    } else {
      NoneFurther(log);
      MapDone(s, j);
      assert s.blocks[s.cut..CutAfter(s, j)] == [];
    }
  }

  lemma MapDone(s: State, j: nat)
    requires s.cut > j || s.cut >= |s.blocks|
    ensures MapUpto(s, j) == s
  {
  }

  lemma {:induction false} FlushByRecency(s: State, i: nat, stop: BufferBlock?, log: seq<BufferBlock>)
    requires Inv(s) && Fits(s) && i <= s.cut && i <= |s.blocks| && ByRecency(s.buckets, log)
    ensures ByRecency(FlushFrom(s, i, stop).state.buckets, log + FlushUpdates(s.blocks[i..], stop))
    decreases |s.blocks| - i
  {
    hide Inv, Fits, MapBlock, Visited, Retire, ByRecency;
    NoneFurther(log);
    if i < |s.blocks| && s.blocks[i].ref != stop {
      var hs := s.blocks[i].heads;
      var f := Visited(MapBlock(s, i), i);
      VisitStep(s, i);
      MapByRecency(s, i, log);
      VisitedBuckets(MapBlock(s, i), i);
      var now := if Mapped(s.blocks[i]) then [] else [s.blocks[i].ref];
      assert s.blocks[i + 1..] == f.blocks[i + 1..];
      FlushUpdatesStep(log, s.blocks, i, stop);
      NoneFurther(log + now);
      if FirstBusy(hs) == |hs| {
        if Skips(hs) {
          FlushByRecency(f, i + 1, stop, log + now);
        } else {
          InvCut(f);
          RetireStep(f, i);
          RetireByRecency(f, i, log + now);
          FlushByRecency(Retire(f, i), i, stop, log + now);
        }
      }
    }
  }

  lemma FlushUpdatesStep(log: seq<BufferBlock>, bs: seq<BlockV>, i: nat, stop: BufferBlock?)
    requires i < |bs| && bs[i].ref != stop
    ensures log + FlushUpdates(bs[i..], stop) ==
      log + (if Mapped(bs[i]) then [] else [bs[i].ref])
      + if FirstBusy(bs[i].heads) < |bs[i].heads| then [] else FlushUpdates(bs[i + 1..], stop)
  {
    assert bs[i..][0] == bs[i] && bs[i..][1..] == bs[i + 1..];
  }

  lemma VisitedBuckets(s: State, i: nat)
    requires i < |s.blocks|
    ensures Visited(s, i).buckets == s.buckets
  {
  }

  lemma RetireByRecency(s: State, i: nat, log: seq<BufferBlock>)
    requires i < |s.blocks| && ByRecency(s.buckets, log)
    ensures ByRecency(Retire(s, i).buckets, log)
  {
    hide ByRecency;
    RetireIsFree(s, i);
    FreeByRecency(s, i, log);
  }

  lemma DropByRecency(s: State, i: nat, k: nat, revoke: bool, log: seq<BufferBlock>)
    requires IsHead(s, i, k) && ByRecency(s.buckets, log)
    ensures ByRecency(Drop(s, i, k, revoke).buckets, log)
  {
    hide ByRecency, BlkRoundUp, U32;
    FreeByRecency(s.(blocks := s.blocks[i := WithoutHead(s.blocks[i], k)]), i, log);
  }

  /** Every step keeps the order, in the log with its own updates at the end. */
  lemma StepByRecency(s: State, st: Step, log: seq<BufferBlock>)
    requires Inv(s) && Fits(s) && StepOk(s, st) && ByRecency(s.buckets, log)
    ensures ByRecency(Apply(s, st).buckets, log + Updates(s, st))
  {
    hide Inv, Fits, ByRecency, Attached, MapUpto, FlushFrom, Drop, TryAttach, CutAfter;
    NoneFurther(log);
    match st
    case New(block, typ) =>
    case Attach(i, h, incr, align, extra) =>
      if TryAttach(s, i, incr, align, extra) >= 0 { AttachByRecency(s, i, h, incr, align, extra, log); }
    case MapTo(j) =>
      MapUptoByRecency(s, j, log);
      if j < s.cut { MapDone(s, j); }
    case FlushTo(stop) =>
      FlushByRecency(s, 0, stop, log);
      assert s.blocks[0..] == s.blocks;
    case DropHead(i, k, revoke) => DropByRecency(s, i, k, revoke, log);
    case SetOp(i, k, op) =>
    case WriteTo(i, k, skip, data) =>
  }

  /** The updates of a whole run. */
  ghost function History(s: State, steps: seq<Step>): seq<BufferBlock>
    requires RunOk(s, steps)
    decreases steps
  {
    if steps == [] then [] else Updates(s, steps[0]) + History(Apply(s, steps[0]), steps[1..])
  }

  lemma {:induction false} RunByRecency(s: State, steps: seq<Step>, log: seq<BufferBlock>)
    requires Inv(s) && Fits(s) && RunOk(s, steps) && ByRecency(s.buckets, log)
    ensures ByRecency(Run(s, steps).buckets, log + History(s, steps))
    decreases steps
  {
    hide Inv, Fits, StepOk, Apply, ByRecency, Updates;
    if steps == [] {
      NoneFurther(log);
    } else {
      StepByRecency(s, steps[0], log);
      StepInv(s, steps[0]);
      RunByRecency(Apply(s, steps[0]), steps[1..], log + Updates(s, steps[0]));
      assert log + History(s, steps) == log + Updates(s, steps[0]) + History(Apply(s, steps[0]), steps[1..]);
    }
  }

  /** In every reachable state each bucket lists its blocks in the order in which they
      were last updated. */
  lemma ReachableRecency(bits: nat, startblk: nat, dev: seq<byte>, steps: seq<Step>, k: Key, x: nat, y: nat)
    requires FromInit(bits, startblk, dev, steps) && k in Final(bits, startblk, dev, steps).buckets
    requires x < y < |Final(bits, startblk, dev, steps).buckets[k]|
    ensures var q, log := Final(bits, startblk, dev, steps).buckets[k], History(Init(bits, startblk, dev), steps);
      Last(log, q[x]) < Last(log, q[y])
  {
    hide RunOk, Run, Inv, Fits, Last, History;
    InitInv(bits, startblk, dev);
    RunByRecency(Init(bits, startblk, dev), steps, []);
    NoneBefore(History(Init(bits, startblk, dev), steps));
  }

  lemma NoneBefore(log: seq<BufferBlock>)
    ensures [] + log == log
  {
  }

  /** So of all mapped blocks of the type and the present fill of an indexed choice, the
      choice was left alone the longest. */
  lemma ChoiceIsOldest(bits: nat, startblk: nat, dev: seq<byte>, steps: seq<Step>, q: Request, i: nat, j: nat)
    requires FromInit(bits, startblk, dev, steps)
    requires var s := Final(bits, startblk, dev, steps);
      && BestFit(s, q, i) && i + 1 < s.cut && j < s.cut && j < |s.blocks| && j != i
      && s.blocks[j].typ == s.blocks[i].typ && s.blocks[j].off % Pow2(bits) == s.blocks[i].off % Pow2(bits)
    ensures var s, log := Final(bits, startblk, dev, steps), History(Init(bits, startblk, dev), steps);
      Last(log, s.blocks[i].ref) < Last(log, s.blocks[j].ref)
  {
    hide RunOk, Run, Last, History, BestFit, Inv, Fits;
    InitInv(bits, startblk, dev);
    RunInv(Init(bits, startblk, dev), steps);
    RunBits(Init(bits, startblk, dev), steps);
    var s := Final(bits, startblk, dev, steps);
    PrefixOf(s);
    var y := BehindChoice(s, q, i, j);
    ReachableRecency(bits, startblk, dev, steps, KeyOf(s.bits, s.blocks[i]), 0, y);
  }

  /** An indexed choice is the head of its bucket, and every other block of the same type
      and fill is further back. */
  lemma BehindChoice(s: State, q: Request, i: nat, j: nat) returns (y: nat)
    requires Inv(s) && BestFit(s, q, i) && i + 1 < s.cut && j < s.cut && j < |s.blocks| && j != i && i < |s.blocks|
    requires KeyOf(s.bits, s.blocks[j]) == KeyOf(s.bits, s.blocks[i])
    ensures var k := KeyOf(s.bits, s.blocks[i]);
      && k in s.buckets && 0 < y < |s.buckets[k]|
      && s.buckets[k][0] == s.blocks[i].ref && s.buckets[k][y] == s.blocks[j].ref
  {
    hide Eligible, Beats, Shape, Ordered, AllSorted, HeadsDistinct, KeyOf;
    y :| y < |s.buckets[KeyOf(s.bits, s.blocks[j])]| && s.buckets[KeyOf(s.bits, s.blocks[j])][y] == s.blocks[j].ref;
  }
}
