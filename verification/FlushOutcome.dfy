/** What a flush leaves of the block list, block by block and head by head. */
module FlushOutcome {
  import opened Rounding
  import opened Objects
  import opened Layout
  import opened LayoutInv
  import opened Mapping
  import opened Flushing

  /** The heads that stay are exactly those that are not dropped. */
  lemma {:induction false} KeptIff(hs: seq<HeadV>, h: HeadV)
    ensures h in Kept(hs) <==> h in hs && h.op != DropDirectly
  {
    if hs != [] {
      KeptIff(hs[1..], h);
      assert hs == [hs[0]] + hs[1..];
    }
  }

  /** Whether a flush that starts at position `i` gets to block `j`. */
  ghost predicate InFront(bs: seq<BlockV>, i: nat, j: nat, stop: BufferBlock?) {
    j < |bs| && forall l :: i <= l <= j ==> bs[l].ref != stop
  }

  lemma FrontLater(bs: seq<BlockV>, cs: seq<BlockV>, i: nat, i': nat, j: nat, stop: BufferBlock?)
    requires i < j < |bs| && i' <= |cs| && bs[i].ref != stop && cs[i'..] == bs[i + 1..]
    ensures j - i - 1 + i' < |cs| && cs[j - i - 1 + i'] == bs[j]
    ensures InFront(bs, i, j, stop) <==> InFront(cs, i', j - i - 1 + i', stop)
  {
    var d := i' - i - 1;
    assert forall l :: i < l < |bs| ==> bs[l] == bs[i + 1..][l - i - 1] == cs[i'..][l - i - 1] == cs[l + d];
    if InFront(cs, i', j + d, stop) {
      forall l | i <= l <= j ensures bs[l].ref != stop { if l > i { assert cs[l + d].ref != stop; } }
    }
    if InFront(bs, i, j, stop) {
      forall l | i' <= l <= j + d ensures cs[l].ref != stop { assert bs[l - d].ref != stop && cs[l - d + d] == bs[l - d]; }
    }
  }

  /** Heads of a block whose flush operations all succeed. */
  lemma VisitedHeads(s: State, i: nat)
    requires i < |s.blocks| && FirstBusy(s.blocks[i].heads) == |s.blocks[i].heads|
    ensures Visited(s, i).blocks[i] == s.blocks[i].(heads := Kept(s.blocks[i].heads))
  {
    var hs := s.blocks[i].heads;
    assert hs[..|hs|] == hs && Kept(hs) + hs[|hs|..] == Kept(hs);
  }

  lemma MappedHeads(s: State, i: nat)
    requires Inv(s) && Fits(s) && i < |s.blocks| && i <= s.cut
    ensures |MapBlock(s, i).blocks| == |s.blocks|
    ensures MapBlock(s, i).blocks[i].heads == s.blocks[i].heads && MapBlock(s, i).blocks[i].off == s.blocks[i].off
  {
    hide Inv, Fits, MapBlock;
    MapEither(s, i);
  }

  /** One round, with what it does to the block itself. */
  lemma Round(s: State, i: nat, stop: BufferBlock?)
    requires Inv(s) && Fits(s) && i < |s.blocks| && i <= s.cut && s.blocks[i].ref != stop
    requires FirstBusy(s.blocks[i].heads) == |s.blocks[i].heads|
    ensures var f := Visited(MapBlock(s, i), i);
      var r := Retire(f, i);
      && Inv(f) && Fits(f) && i < f.cut && |f.blocks| == |s.blocks|
      && f.blocks[..i] == s.blocks[..i] && f.blocks[i + 1..] == s.blocks[i + 1..]
      && f.blocks[i].ref == s.blocks[i].ref && f.blocks[i].off == s.blocks[i].off
      && f.blocks[i].heads == Kept(s.blocks[i].heads)
      && Inv(r) && Fits(r) && i <= r.cut && |r.blocks| == |s.blocks| - 1
      && r.blocks[..i] == s.blocks[..i] && r.blocks[i..] == s.blocks[i + 1..]
      && FlushFrom(s, i, stop) == if Skips(s.blocks[i].heads) then FlushFrom(f, i + 1, stop) else FlushFrom(r, i, stop)
  {
    hide Inv, Fits, MapBlock, Visited, Retire, Skips;
    VisitStep(s, i);
    MappedHeads(s, i);
    VisitedHeads(MapBlock(s, i), i);
    var f := Visited(MapBlock(s, i), i);
    InvCut(f);
    RetireStep(f, i);
  }

  /** What is in front of the flush stays as it is. */
  lemma {:induction false} FlushPrefix(s: State, i: nat, stop: BufferBlock?)
    requires Inv(s) && Fits(s) && i <= s.cut && i <= |s.blocks| && FlushFrom(s, i, stop).ret == 0
    ensures var t := FlushFrom(s, i, stop).state; i <= |t.blocks| && t.blocks[..i] == s.blocks[..i]
    decreases |s.blocks| - i
  {
    hide Inv, Fits, MapBlock, Visited, Retire, Skips;
    if i < |s.blocks| && s.blocks[i].ref != stop && FirstBusy(s.blocks[i].heads) == |s.blocks[i].heads| {
      Round(s, i, stop);
      var f := Visited(MapBlock(s, i), i);
      if Skips(s.blocks[i].heads) {
        FlushPrefix(f, i + 1, stop);
        var t := FlushFrom(s, i, stop).state;
        assert t.blocks[..i] == t.blocks[..i + 1][..i] == f.blocks[..i + 1][..i] == f.blocks[..i];
      } else {
        FlushPrefix(Retire(f, i), i, stop);
      }
    }
  }

  ghost predicate Has(bs: seq<BlockV>, r: BufferBlock) { exists x :: 0 <= x < |bs| && bs[x].ref == r }

  lemma HasParts(bs: seq<BlockV>, i: nat, r: BufferBlock)
    requires i <= |bs|
    ensures Has(bs, r) <==> Has(bs[..i], r) || Has(bs[i..], r)
  {
    if Has(bs, r) {
      var x :| 0 <= x < |bs| && bs[x].ref == r;
      if x < i { assert bs[..i][x].ref == r; } else { assert bs[i..][x - i].ref == r; }
    }
    if Has(bs[..i], r) { var x :| 0 <= x < i && bs[..i][x].ref == r; assert bs[x].ref == r; }
    if Has(bs[i..], r) { var x :| 0 <= x < |bs| - i && bs[i..][x].ref == r; assert bs[i + x].ref == r; }
  }

  lemma HasOne(bs: seq<BlockV>, i: nat, r: BufferBlock)
    requires i < |bs|
    ensures Has(bs[i..], r) <==> bs[i].ref == r || Has(bs[i + 1..], r)
  {
    HasParts(bs[i..], 1, r);
    assert bs[i..][..1] == [bs[i]] && bs[i..][1..] == bs[i + 1..];
    if bs[i].ref == r { assert [bs[i]][0].ref == r; }
  }

  /** No block comes in. */
  lemma {:induction false} FlushAddsNone(s: State, i: nat, stop: BufferBlock?, r: BufferBlock)
    requires Inv(s) && Fits(s) && i <= s.cut && i <= |s.blocks| && FlushFrom(s, i, stop).ret == 0
    requires !Has(s.blocks, r)
    ensures !Has(FlushFrom(s, i, stop).state.blocks, r)
    decreases |s.blocks| - i
  {
    hide Inv, Fits, MapBlock, Visited, Retire, Skips, Has;
    if i < |s.blocks| && s.blocks[i].ref != stop && FirstBusy(s.blocks[i].heads) == |s.blocks[i].heads| {
      Round(s, i, stop);
      var f := Visited(MapBlock(s, i), i);
      HasParts(s.blocks, i, r);
      HasOne(s.blocks, i, r);
      if Skips(s.blocks[i].heads) {
        HasParts(f.blocks, i, r);
        HasOne(f.blocks, i, r);
        FlushAddsNone(f, i + 1, stop, r);
      } else {
        HasParts(Retire(f, i).blocks, i, r);
        FlushAddsNone(Retire(f, i), i, stop, r);
      }
    }
  }

  lemma Elsewhere(s: State, i: nat, cs: seq<BlockV>)
    requires Inv(s) && i < |s.blocks| && i <= |cs| && cs[..i] == s.blocks[..i] && cs[i..] == s.blocks[i + 1..]
    ensures !Has(cs, s.blocks[i].ref)
  {
    assert Distinct(s);
    forall x | 0 <= x < |cs| ensures cs[x].ref != s.blocks[i].ref {
      if x < i {
        assert cs[x] == cs[..i][x] == s.blocks[x];
      } else {
        assert cs[x] == cs[i..][x - i] == s.blocks[x + 1];
      }
    }
  }

  /** What becomes of block `j` in a flush from position `i` on. */
  ghost predicate Fate(bs: seq<BlockV>, i: nat, j: nat, stop: BufferBlock?, ts: seq<BlockV>, x: nat) {
    j < |bs| &&
    if InFront(bs, i, j, stop) && !Skips(bs[j].heads) then !Has(ts, bs[j].ref)
    else
      && x < |ts| && ts[x].ref == bs[j].ref && ts[x].off == bs[j].off
      && ts[x].heads == if InFront(bs, i, j, stop) then Kept(bs[j].heads) else bs[j].heads
  }

  /** Of the block the flush begins with. */
  lemma OwnFate(s: State, i: nat, stop: BufferBlock?)
    requires Inv(s) && Fits(s) && i <= s.cut && i < |s.blocks| && s.blocks[i].ref != stop
    requires FirstBusy(s.blocks[i].heads) == |s.blocks[i].heads| && FlushFrom(s, i, stop).ret == 0
    ensures Fate(s.blocks, i, i, stop, FlushFrom(s, i, stop).state.blocks, i)
  {
    hide Inv, Fits, MapBlock, Visited, Retire, Skips, Has, Kept, FlushFrom;
    Round(s, i, stop);
    var f := Visited(MapBlock(s, i), i);
    if Skips(s.blocks[i].heads) {
      FlushPrefix(f, i + 1, stop);
      var t := FlushFrom(f, i + 1, stop).state;
      assert t.blocks[i] == t.blocks[..i + 1][i] == f.blocks[..i + 1][i] == f.blocks[i];
    } else {
      Elsewhere(s, i, Retire(f, i).blocks);
      FlushAddsNone(Retire(f, i), i, stop, s.blocks[i].ref);
    }
  }

  lemma FateLater(bs: seq<BlockV>, cs: seq<BlockV>, i: nat, i': nat, j: nat, stop: BufferBlock?, ts: seq<BlockV>, x: nat)
    requires i < j < |bs| && i' <= |cs| && bs[i].ref != stop && cs[i'..] == bs[i + 1..]
    requires Fate(cs, i', j - i - 1 + i', stop, ts, x)
    ensures Fate(bs, i, j, stop, ts, x)
  {
    hide InFront, Skips, Has, Kept;
    FrontLater(bs, cs, i, i', j, stop);
  }

  lemma NotInFront(bs: seq<BlockV>, i: nat, j: nat, stop: BufferBlock?)
    requires i <= j < |bs| && bs[i].ref == stop
    ensures Fate(bs, i, j, stop, bs, j)
  {
  }

  lemma {:induction false} FlushFate(s: State, i: nat, stop: BufferBlock?, j: nat) returns (x: nat)
    requires Inv(s) && Fits(s) && i <= s.cut && i <= j < |s.blocks| && FlushFrom(s, i, stop).ret == 0
    ensures Fate(s.blocks, i, j, stop, FlushFrom(s, i, stop).state.blocks, x)
    decreases |s.blocks| - i
  {
    hide Inv, Fits, MapBlock, Visited, Retire, Skips, Fate;
    x := j;
    if s.blocks[i].ref == stop {
      NotInFront(s.blocks, i, j, stop);
    } else {
      Round(s, i, stop);
      var f := Visited(MapBlock(s, i), i);
      if j == i {
        OwnFate(s, i, stop);
      } else if Skips(s.blocks[i].heads) {
        x := FlushFate(f, i + 1, stop, j);
        FateLater(s.blocks, f.blocks, i, i + 1, j, stop, FlushFrom(s, i, stop).state.blocks, x);
      } else {
        x := FlushFate(Retire(f, i), i, stop, j - 1);
        FateLater(s.blocks, Retire(f, i).blocks, i, i, j, stop, FlushFrom(s, i, stop).state.blocks, x);
      }
    }
  }

  /** What a successful flush leaves: of the blocks in front of the stop block exactly
      those with a head that skips the write, without the heads that ask to be dropped;
      and everything from the stop block on as it was. */
  lemma FlushLeaves(s: State, stop: BufferBlock?, j: nat) returns (x: nat)
    requires Inv(s) && Fits(s) && j < |s.blocks| && FlushFrom(s, 0, stop).ret == 0
    ensures var t, b := FlushFrom(s, 0, stop).state, s.blocks[j];
      var front := forall l :: 0 <= l <= j ==> s.blocks[l].ref != stop;
      if front && forall k :: 0 <= k < |b.heads| ==> b.heads[k].op != SkipWrite
      then forall y :: 0 <= y < |t.blocks| ==> t.blocks[y].ref != b.ref
      else
        && x < |t.blocks| && t.blocks[x].ref == b.ref && t.blocks[x].off == b.off
        && forall h :: h in t.blocks[x].heads <==> h in b.heads && (front ==> h.op != DropDirectly)
  {
    hide Inv, Fits, FlushFrom, Kept;
    x := FlushFate(s, 0, stop, j);
    forall h ensures h in Kept(s.blocks[j].heads) <==> h in s.blocks[j].heads && h.op != DropDirectly {
      KeptIff(s.blocks[j].heads, h);
    }
  }

  lemma {:induction false} FlushReturns(s: State, i: nat, stop: BufferBlock?)
    requires Inv(s) && Fits(s) && i <= s.cut && i <= |s.blocks|
    ensures FlushFrom(s, i, stop).ret == 0 || FlushFrom(s, i, stop).ret == -16
    ensures FlushFrom(s, i, stop).ret == 0 <==>
      forall j: nat :: i <= j && InFront(s.blocks, i, j, stop) ==> FirstBusy(s.blocks[j].heads) == |s.blocks[j].heads|
    decreases |s.blocks| - i
  {
    hide Inv, Fits, MapBlock, Visited, Retire, Skips, FirstBusy;
    if i < |s.blocks| && s.blocks[i].ref != stop {
      assert InFront(s.blocks, i, i, stop);
      if FirstBusy(s.blocks[i].heads) == |s.blocks[i].heads| {
        Round(s, i, stop);
        var f := Visited(MapBlock(s, i), i);
        if Skips(s.blocks[i].heads) {
          FlushReturns(f, i + 1, stop);
          SameBusy(s.blocks, f.blocks, i, i + 1, stop);
        } else {
          FlushReturns(Retire(f, i), i, stop);
          SameBusy(s.blocks, Retire(f, i).blocks, i, i, stop);
        }
      } else {
        FirstIsBusy(s, i, stop);
      }
    }
  }

  lemma FirstIsBusy(s: State, i: nat, stop: BufferBlock?)
    requires i < |s.blocks| && s.blocks[i].ref != stop && FirstBusy(s.blocks[i].heads) != |s.blocks[i].heads|
    ensures FlushFrom(s, i, stop).ret == -16
  {
  }

  lemma SameBusy(bs: seq<BlockV>, cs: seq<BlockV>, i: nat, i': nat, stop: BufferBlock?)
    requires i < |bs| && bs[i].ref != stop && i' <= |cs| && cs[i'..] == bs[i + 1..]
    requires FirstBusy(bs[i].heads) == |bs[i].heads|
    ensures (forall j: nat :: i <= j && InFront(bs, i, j, stop) ==> FirstBusy(bs[j].heads) == |bs[j].heads|)
      <==> forall j: nat :: i' <= j && InFront(cs, i', j, stop) ==> FirstBusy(cs[j].heads) == |cs[j].heads|
  {
    hide InFront, FirstBusy;
    InFrontBound(bs, i, stop);
    InFrontBound(cs, i', stop);
    if forall j: nat :: i' <= j && InFront(cs, i', j, stop) ==> FirstBusy(cs[j].heads) == |cs[j].heads| {
      forall j: nat | i <= j && InFront(bs, i, j, stop) ensures FirstBusy(bs[j].heads) == |bs[j].heads| {
        if j > i { FrontLater(bs, cs, i, i', j, stop); }
      }
    }
    if forall j: nat :: i <= j && InFront(bs, i, j, stop) ==> FirstBusy(bs[j].heads) == |bs[j].heads| {
      forall j: nat | i' <= j && InFront(cs, i', j, stop) ensures FirstBusy(cs[j].heads) == |cs[j].heads| {
        FrontLater(bs, cs, i, i', j - i' + i + 1, stop);
      }
    }
  }

  lemma InFrontBound(bs: seq<BlockV>, i: nat, stop: BufferBlock?)
    ensures forall j: nat :: InFront(bs, i, j, stop) ==> j < |bs|
  {
  }

  /** A flush succeeds if and only if no head of a block in front of the stop block
      refuses, and fails with EBUSY otherwise. */
  lemma FlushSucceedsIff(s: State, stop: BufferBlock?)
    requires Inv(s) && Fits(s)
    ensures FlushFrom(s, 0, stop).ret == 0 || FlushFrom(s, 0, stop).ret == -16
    ensures FlushFrom(s, 0, stop).ret == 0 <==>
      forall j: nat, k: nat :: IsHead(s, j, k) && (forall l :: 0 <= l <= j ==> s.blocks[l].ref != stop)
        ==> s.blocks[j].heads[k].op != Busy
  {
    hide Inv, Fits, FlushFrom;
    FlushReturns(s, 0, stop);
    if forall j: nat, k: nat :: IsHead(s, j, k) && (forall l :: 0 <= l <= j ==> s.blocks[l].ref != stop)
         ==> s.blocks[j].heads[k].op != Busy {
      forall j: nat | InFront(s.blocks, 0, j, stop) ensures FirstBusy(s.blocks[j].heads) == |s.blocks[j].heads| {
        var k := FirstBusy(s.blocks[j].heads);
        assert k < |s.blocks[j].heads| ==> IsHead(s, j, k);
      }
    }
    if FlushFrom(s, 0, stop).ret == 0 {
      forall j: nat, k: nat | IsHead(s, j, k) && (forall l :: 0 <= l <= j ==> s.blocks[l].ref != stop)
        ensures s.blocks[j].heads[k].op != Busy
      {
        assert InFront(s.blocks, 0, j, stop);
      }
    }
  }
}
