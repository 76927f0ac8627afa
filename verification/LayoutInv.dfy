/** Every operation of the buffer manager keeps its invariant. */
module LayoutInv {
  import opened Rounding
  import opened Objects
  import opened Layout

  // ------------------------------------------------ parts of the invariant

  lemma PrefixOf(s: State)
    requires Inv(s)
    ensures Prefix(s)
  {
  }

  lemma OrderedOf(s: State)
    requires Inv(s)
    ensures Ordered(s)
  {
  }

  lemma TailBounded(s: State)
    requires Fits(s)
    ensures s.tail < NULL_ADDR
  {
  }

  lemma CutInList(s: State)
    requires Prefix(s)
    ensures s.cut <= |s.blocks|
  {
  }

  lemma InvCut(s: State)
    requires Inv(s)
    ensures s.cut <= |s.blocks| && ValidBits(s.bits)
  {
  }

  lemma InvSorted(s: State)
    requires Inv(s)
    ensures AllSorted(s)
  {
  }

  lemma SameHeads(s: State, t: State)
    requires |s.blocks| == |t.blocks|
    requires forall i :: 0 <= i < |s.blocks| ==> t.blocks[i].heads == s.blocks[i].heads && t.blocks[i].off == s.blocks[i].off
    ensures HeadsDistinct(s) ==> HeadsDistinct(t)
    ensures AllSorted(s) ==> AllSorted(t)
  {
    if HeadsDistinct(s) {
      forall i: nat, k: nat, j: nat, l: nat |
        IsHead(t, i, k) && IsHead(t, j, l) && t.blocks[i].heads[k].ref == t.blocks[j].heads[l].ref
        ensures i == j && k == l
      {
        assert IsHead(s, i, k) && IsHead(s, j, l);
      }
    }
    if AllSorted(s) {
      forall i | 0 <= i < |t.blocks| ensures HeadsSorted(t.blocks[i]) { assert HeadsSorted(s.blocks[i]); }
    }
  }

  // ------------------------------------------------------------- buckets

  lemma {:induction false} UnlinkContents(q: seq<BufferBlock>, r: BufferBlock)
    ensures r !in Unlink(q, r)
    ensures forall x :: x != r ==> (x in Unlink(q, r) <==> x in q)
    ensures NoDup(q) ==> NoDup(Unlink(q, r))
  {
    if q != [] {
      UnlinkContents(q[1..], r);
      assert q == [q[0]] + q[1..];
      if NoDup(q) {
        assert NoDup(q[1..]);
        assert q[0] !in q[1..];
      }
    }
  }

  lemma UnlinkAllContents(m: map<Key, seq<BufferBlock>>, r: BufferBlock)
    ensures UnlinkAll(m, r).Keys == m.Keys
    ensures forall k :: k in m ==> r !in UnlinkAll(m, r)[k]
    ensures forall k, x :: k in m && x != r ==> (x in UnlinkAll(m, r)[k] <==> x in m[k])
    ensures forall k :: k in m && NoDup(m[k]) ==> NoDup(UnlinkAll(m, r)[k])
  {
    forall k | k in m
      ensures r !in UnlinkAll(m, r)[k]
      ensures forall x :: x != r ==> (x in UnlinkAll(m, r)[k] <==> x in m[k])
      ensures NoDup(m[k]) ==> NoDup(UnlinkAll(m, r)[k])
    {
      UnlinkContents(m[k], r);
    }
  }

  /** `Indexed` for all blocks but the one at position `i`. */
  ghost predicate IndexedBut(s: State, i: nat) {
    && i < |s.blocks|
    && (forall k :: k in s.buckets <==> IsKey(k))
    && (forall k :: k in s.buckets ==> NoDup(s.buckets[k]))
    && (forall k, r :: k in s.buckets && r in s.buckets[k] && r != s.blocks[i].ref ==> Belongs(s, r, k))
    && (forall j :: 0 <= j < s.cut && j < |s.blocks| && j != i ==>
          KeyOf(s.bits, s.blocks[j]) in s.buckets
          && s.blocks[j].ref in s.buckets[KeyOf(s.bits, s.blocks[j])])
  }

  lemma KeyIsKey(bits: nat, b: BlockV)
    requires ValidBits(bits) && (b.typ == DATA || b.typ == META)
    ensures IsKey(KeyOf(bits, b))
  {
    BlockSizes(bits);
    DivMod(b.off, Pow2(bits));
  }

  lemma UpdateMappedRest(s: State, i: nat)
    requires i < |s.blocks|
    ensures UpdateMapped(s, i).(buckets := s.buckets) == s
  {
  }

  /** All clauses that do not speak about buckets. */
  ghost predicate Core(s: State) {
    Shape(s) && Prefix(s) && Distinct(s) && Ordered(s) && AllSorted(s) && HeadsDistinct(s)
  }

  lemma CoreSame(s: State, t: State)
    requires t.blocks == s.blocks && t.cut == s.cut && t.bits == s.bits && t.tail == s.tail
    ensures Core(s) ==> Core(t)
    ensures StrictlyOrdered(s) ==> StrictlyOrdered(t)
  {
    if HeadsDistinct(s) { SameHeads(s, t); }
  }

  /** `BupdateMapped` repairs the index for the block it is called on. */
  lemma Relink(s: State, i: nat)
    requires Shape(s) && Distinct(s) && IndexedBut(s, i)
    requires i < s.cut <= |s.blocks| && Mapped(s.blocks[i])
    ensures Indexed(UpdateMapped(s, i))
  {
    hide UnlinkAll, KeyOf, Belongs, NoDup;
    RelinkBuckets(s, i);
    var t := UpdateMapped(s, i);
    forall k, r | k in t.buckets && r in t.buckets[k] ensures Belongs(t, r, k) { RelinkBelongs(s, i, k, r); }
    forall j | 0 <= j < t.cut && j < |t.blocks|
      ensures KeyOf(t.bits, t.blocks[j]) in t.buckets && t.blocks[j].ref in t.buckets[KeyOf(t.bits, t.blocks[j])]
    {
      if j != i { assert s.blocks[j].ref != s.blocks[i].ref; }
    }
  }

  /** The buckets afterwards: the block is in its own, and the others are as before. */
  lemma RelinkBuckets(s: State, i: nat)
    requires Shape(s) && IndexedBut(s, i) && Mapped(s.blocks[i])
    ensures var t, r, key := UpdateMapped(s, i), s.blocks[i].ref, KeyOf(s.bits, s.blocks[i]);
      && t.(buckets := s.buckets) == s && t.buckets.Keys == s.buckets.Keys && key in s.buckets
      && (forall k :: k in t.buckets ==> NoDup(t.buckets[k]))
      && (forall k :: k in t.buckets ==> (r in t.buckets[k] <==> k == key))
      && (forall k, x :: k in t.buckets && x != r ==> (x in t.buckets[k] <==> x in s.buckets[k]))
  {
    hide UnlinkAll, KeyOf, Belongs;
    KeyIsKey(s.bits, s.blocks[i]);
    UnlinkAllContents(s.buckets, s.blocks[i].ref);
  }

  /** Only what belongs into a bucket is in there. */
  lemma RelinkBelongs(s: State, i: nat, k: Key, r: BufferBlock)
    requires Shape(s) && IndexedBut(s, i) && i < s.cut <= |s.blocks| && Mapped(s.blocks[i])
    requires k in UpdateMapped(s, i).buckets && r in UpdateMapped(s, i).buckets[k]
    ensures Belongs(UpdateMapped(s, i), r, k)
  {
    hide UnlinkAll, UpdateMapped, KeyOf, NoDup;
    RelinkBuckets(s, i);
    if r == s.blocks[i].ref {
      assert UpdateMapped(s, i).blocks[i].ref == r;
    } else {
      assert Belongs(s, r, k);
    }
  }

  /** Blocks outside the mapped prefix do not matter to the index. */
  lemma IndexedByPrefix(s: State, t: State)
    requires Indexed(s) && s.cut <= |s.blocks| && s.cut <= |t.blocks|
    requires t.cut == s.cut && t.bits == s.bits && t.buckets == s.buckets
    requires forall i :: 0 <= i < s.cut ==>
      t.blocks[i].ref == s.blocks[i].ref && KeyOf(t.bits, t.blocks[i]) == KeyOf(s.bits, s.blocks[i])
    ensures Indexed(t)
  {
    forall k, r | k in t.buckets && r in t.buckets[k] ensures Belongs(t, r, k) {
      assert Belongs(s, r, k);
      var j :| 0 <= j < s.cut && j < |s.blocks| && s.blocks[j].ref == r && KeyOf(s.bits, s.blocks[j]) == k;
      assert t.blocks[j].ref == r;
    }
  }

  /** Every mapped block is in exactly one bucket, the one of its type and fill,
      and only there; unmapped blocks are in none. */
  lemma ExactlyOneBucket(s: State, i: nat, k: Key)
    requires Inv(s) && i < |s.blocks| && k in s.buckets
    ensures s.blocks[i].ref in s.buckets[k] <==> Mapped(s.blocks[i]) && k == KeyOf(s.bits, s.blocks[i])
    ensures multiset(s.buckets[k])[s.blocks[i].ref] <= 1
  {
    var r := s.blocks[i].ref;
    if r in s.buckets[k] {
      assert Belongs(s, r, k);
      var j :| 0 <= j < s.cut && j < |s.blocks| && s.blocks[j].ref == r && KeyOf(s.bits, s.blocks[j]) == k;
      assert j == i;
    }
    OnceInNoDup(s.buckets[k], r);
  }

  lemma {:induction false} OnceInNoDup(q: seq<BufferBlock>, r: BufferBlock)
    requires NoDup(q)
    ensures multiset(q)[r] <= 1
  {
    if q != [] {
      assert q == [q[0]] + q[1..];
      assert NoDup(q[1..]);
      OnceInNoDup(q[1..], r);
      assert q[0] !in q[1..];
    }
  }

  // --------------------------------------------------------------- init

  lemma InitInv(bits: nat, startblk: nat, dev: seq<byte>)
    requires ValidBits(bits) && startblk < NULL_ADDR
    ensures Inv(Init(bits, startblk, dev)) && StrictlyOrdered(Init(bits, startblk, dev))
    ensures Fits(Init(bits, startblk, dev))
  {
    var s := Init(bits, startblk, dev);
    assert s.blocks[s.cut..] == [];
  }

  // ---------------------------------------------------------- new block

  ghost predicate FreshBlock(s: State, ref: BufferBlock) {
    forall i :: 0 <= i < |s.blocks| ==> s.blocks[i].ref != ref
  }

  lemma NewBlockBlocks(s: State, ref: BufferBlock, typ: int)
    requires s.cut <= |s.blocks|
    ensures var t, p := NewBlock(s, ref, typ), if typ == DATA then s.cut else |s.blocks|;
      && |t.blocks| == |s.blocks| + 1 && s.cut <= p <= |s.blocks|
      && t.blocks[p] == BlockV(ref, NULL_ADDR, typ, 0, [])
      && forall i :: 0 <= i < |t.blocks| && i != p ==> t.blocks[i] == s.blocks[if i < p then i else i - 1]
  {
  }

  lemma NewBlockList(s: State, ref: BufferBlock, typ: int)
    requires Shape(s) && Prefix(s) && Distinct(s) && FreshBlock(s, ref) && (typ == DATA || typ == META)
    ensures var t := NewBlock(s, ref, typ); Shape(t) && Prefix(t) && Distinct(t)
  {
    NewBlockBlocks(s, ref, typ);
  }

  /** The order of extents depends on the mapped prefix alone. */
  lemma OrderedByPrefix(s: State, t: State)
    requires s.cut <= |s.blocks| && t.cut == s.cut && s.cut <= |t.blocks|
    requires t.bits == s.bits && t.tail == s.tail
    requires forall i :: 0 <= i < s.cut ==> t.blocks[i].addr == s.blocks[i].addr && t.blocks[i].off == s.blocks[i].off
    ensures Ordered(s) ==> Ordered(t)
    ensures StrictlyOrdered(s) ==> StrictlyOrdered(t)
  {
    assert forall i :: 0 <= i < s.cut ==> EndAddr(t.bits, t.blocks[i]) == EndAddr(s.bits, s.blocks[i]);
  }

  lemma NewBlockInv(s: State, ref: BufferBlock, typ: int)
    requires Inv(s) && FreshBlock(s, ref) && (typ == DATA || typ == META)
    ensures Inv(NewBlock(s, ref, typ))
    ensures StrictlyOrdered(s) ==> StrictlyOrdered(NewBlock(s, ref, typ))
  {
    var t := NewBlock(s, ref, typ);
    NewBlockBlocks(s, ref, typ);
    NewBlockList(s, ref, typ);
    NewBlockHeads(s, ref, typ);
    OrderedByPrefix(s, t);
    IndexedByPrefix(s, t);
    assert AllSorted(t) by {
      forall i | 0 <= i < |t.blocks| ensures HeadsSorted(t.blocks[i]) { NewBlockSorted(s, ref, typ, i); }
    }
  }

  lemma NewBlockSorted(s: State, ref: BufferBlock, typ: int, i: nat)
    requires s.cut <= |s.blocks| && AllSorted(s) && i < |NewBlock(s, ref, typ).blocks|
    ensures HeadsSorted(NewBlock(s, ref, typ).blocks[i])
  {
    NewBlockBlocks(s, ref, typ);
    var p := if typ == DATA then s.cut else |s.blocks|;
    if i != p { assert HeadsSorted(s.blocks[if i < p then i else i - 1]); }
  }

  lemma NewBlockHeads(s: State, ref: BufferBlock, typ: int)
    requires s.cut <= |s.blocks| && HeadsDistinct(s)
    ensures HeadsDistinct(NewBlock(s, ref, typ))
  {
    var t := NewBlock(s, ref, typ);
    var p := if typ == DATA then s.cut else |s.blocks|;
    forall i: nat, k: nat, j: nat, l: nat |
      IsHead(t, i, k) && IsHead(t, j, l) && t.blocks[i].heads[k].ref == t.blocks[j].heads[l].ref
      ensures i == j && k == l
    {
      var i', j' := if i < p then i else i - 1, if j < p then j else j - 1;
      assert IsHead(s, i', k) && IsHead(s, j', l);
    }
  }

  // -------------------------------------------------------------- attach

  ghost predicate FreshHead(s: State, h: Incoming) {
    h.Fresh? ==> forall i: nat, k: nat :: IsHead(s, i, k) ==> s.blocks[i].heads[k].ref != h.ref
  }

  /** What the source demands of the caller of `BattachInternal`. */
  ghost predicate CanRequest(s: State, i: nat, h: Incoming, incr: nat, align: nat, extra: nat) {
    && i < |s.blocks| && FreshHead(s, h)
    && Divides(align, BlkSiz(s))
    && RoundUp(s.blocks[i].off, align) + incr + extra < TWO_64
  }

  lemma GrownBlock(s: State, i: nat, h: Incoming, incr: nat, align: nat, extra: nat)
    requires ValidBits(s.bits) && CanRequest(s, i, h, incr, align, extra)
    ensures var b, b' := s.blocks[i], Grown(s.blocks[i], h, incr, align);
      && b.off <= b'.off < TWO_64
      && Size(s.bits, b) <= Size(s.bits, b')
      && (b.off == 0 ==> Size(s.bits, b) == 0)
      && (Oob(s.bits, b.off, incr, align, extra) <= 0 ==>
            Size(s.bits, b') == Size(s.bits, b) && (b'.off > 0 ==> b.off > 0))
  {
    var b, b' := s.blocks[i], Grown(s.blocks[i], h, incr, align);
    RoundUpLeast(b.off, align);
    BlkRoundUpMono(s.bits, b.off, b'.off);
    BlkRoundUpZero(s.bits);
    if Oob(s.bits, b.off, incr, align, extra) <= 0 {
      NoGrowthWithinExtent(s.bits, b.off, incr, align, extra);
      if b'.off > 0 { BlkRoundUpPositive(s.bits, b'.off); }
    }
  }

  /** Only the last mapped block, touching the tail, can leave its extent. */
  lemma AttachCases(s: State, i: nat, h: Incoming, incr: nat, align: nat, extra: nat)
    requires Inv(s) && CanRequest(s, i, h, incr, align, extra)
    requires TryAttach(s, i, incr, align, extra) >= 0
    ensures var b, b' := s.blocks[i], Grown(s.blocks[i], h, incr, align);
      var t := Placed(s, i, h, incr, align, extra);
      || (t.tail == s.tail && Size(s.bits, b') == Size(s.bits, b) && (b'.off > 0 ==> b.off > 0))
      || (t.tail == s.tail && i >= s.cut)
      || (i == s.cut - 1 && s.tail == EndAddr(s.bits, b) && t.tail == EndAddr(s.bits, b'))
  {
    GrownBlock(s, i, h, incr, align, extra);
  }

  lemma PlacedOrdered(s: State, i: nat, h: Incoming, incr: nat, align: nat, extra: nat)
    requires Inv(s) && CanRequest(s, i, h, incr, align, extra)
    requires TryAttach(s, i, incr, align, extra) >= 0
    ensures Ordered(Placed(s, i, h, incr, align, extra))
    ensures StrictlyOrdered(s) ==> StrictlyOrdered(Placed(s, i, h, incr, align, extra))
  {
    var t := Placed(s, i, h, incr, align, extra);
    GrownBlock(s, i, h, incr, align, extra);
    AttachCases(s, i, h, incr, align, extra);
    if i >= s.cut {
      OrderedByPrefix(s, t);
    } else if Size(s.bits, t.blocks[i]) == Size(s.bits, s.blocks[i]) && (t.blocks[i].off > 0 ==> s.blocks[i].off > 0) {
      SameSizesOrdered(s, t, i);
    } else {
      LastGrowsOrdered(s, t);
    }
  }

  lemma SameSizesOrdered(s: State, t: State, i: nat)
    requires i < s.cut <= |s.blocks| && t.cut == s.cut && t.bits == s.bits && t.tail == s.tail
    requires |t.blocks| == |s.blocks| && t.blocks == s.blocks[i := t.blocks[i]]
    requires EndAddr(t.bits, t.blocks[i]) == EndAddr(s.bits, s.blocks[i]) && t.blocks[i].addr == s.blocks[i].addr
    requires t.blocks[i].off > 0 ==> s.blocks[i].off > 0
    ensures Ordered(s) ==> Ordered(t)
    ensures StrictlyOrdered(s) ==> StrictlyOrdered(t)
  {
    assert forall j :: 0 <= j < s.cut ==>
      && EndAddr(t.bits, t.blocks[j]) == EndAddr(s.bits, s.blocks[j])
      && t.blocks[j].addr == s.blocks[j].addr && (t.blocks[j].off > 0 ==> s.blocks[j].off > 0);
  }

  lemma LastGrowsOrdered(s: State, t: State)
    requires 0 < s.cut <= |s.blocks| && |t.blocks| == |s.blocks| && t.cut == s.cut && t.bits == s.bits
    requires forall j :: 0 <= j < s.cut - 1 ==> t.blocks[j] == s.blocks[j]
    requires t.blocks[s.cut - 1].addr == s.blocks[s.cut - 1].addr
    requires Size(s.bits, s.blocks[s.cut - 1]) <= Size(t.bits, t.blocks[s.cut - 1])
    requires s.tail == EndAddr(s.bits, s.blocks[s.cut - 1]) && t.tail == EndAddr(t.bits, t.blocks[s.cut - 1])
    requires s.blocks[s.cut - 1].off == 0 ==> Size(s.bits, s.blocks[s.cut - 1]) == 0
    ensures Ordered(s) ==> Ordered(t)
    ensures StrictlyOrdered(s) ==> StrictlyOrdered(t)
  {
    hide Size;
    var m := s.cut - 1;
    if Ordered(s) {
      forall j | 0 <= j < m && t.blocks[j].off > 0 ensures EndAddr(t.bits, t.blocks[j]) <= t.blocks[m].addr {
        assert t.blocks[j] == s.blocks[j];
        assert EndAddr(s.bits, s.blocks[j]) <= s.tail;
      }
    }
  }

  lemma AttachHeads(s: State, i: nat, h: Incoming, incr: nat, align: nat, extra: nat)
    requires Inv(s) && CanRequest(s, i, h, incr, align, extra)
    ensures HeadsDistinct(Placed(s, i, h, incr, align, extra))
    ensures AllSorted(Placed(s, i, h, incr, align, extra))
  {
    GrownBlock(s, i, h, incr, align, extra);
    RoundUpLeast(s.blocks[i].off, align);
    var t := Placed(s, i, h, incr, align, extra);
    var b := s.blocks[i];
    assert HeadsSorted(b);
    assert HeadsSorted(t.blocks[i]);
    forall i1: nat, k: nat, j: nat, l: nat |
      IsHead(t, i1, k) && IsHead(t, j, l) && t.blocks[i1].heads[k].ref == t.blocks[j].heads[l].ref
      ensures i1 == j && k == l
    {
      OldOrNew(s, i, h, incr, align, extra, i1, k);
      OldOrNew(s, i, h, incr, align, extra, j, l);
    }
  }

  /** A head after the attach was there before, or it is the new one. */
  lemma OldOrNew(s: State, i: nat, h: Incoming, incr: nat, align: nat, extra: nat, j: nat, l: nat)
    requires i < |s.blocks| && IsHead(Placed(s, i, h, incr, align, extra), j, l)
    ensures var x := Placed(s, i, h, incr, align, extra).blocks[j].heads[l];
      || (IsHead(s, j, l) && x == s.blocks[j].heads[l])
      || (h.Fresh? && j == i && l == |s.blocks[i].heads|
          && x == HeadV(h.ref, RoundUp(s.blocks[i].off, align), h.op))
  {
  }

  /** Changing one mapped block leaves the index right for all the others. */
  lemma ChangedBlockIndex(s: State, t: State, i: nat)
    requires Indexed(s) && i < |s.blocks| == |t.blocks| && s.cut <= |s.blocks|
    requires t.bits == s.bits && t.buckets == s.buckets && t.cut <= |t.blocks|
    requires forall j :: 0 <= j < |s.blocks| && j != i ==> t.blocks[j] == s.blocks[j]
    requires t.blocks[i].ref == s.blocks[i].ref
    requires t.cut == s.cut || (t.cut == s.cut + 1 && i == s.cut)
    ensures IndexedBut(t, i)
  {
    forall k, r | k in t.buckets && r in t.buckets[k] && r != t.blocks[i].ref ensures Belongs(t, r, k) {
      assert Belongs(s, r, k);
      var j :| 0 <= j < s.cut && j < |s.blocks| && s.blocks[j].ref == r && KeyOf(s.bits, s.blocks[j]) == k;
      assert t.blocks[j] == s.blocks[j];
    }
  }

  lemma AttachIndexed(s: State, i: nat, h: Incoming, incr: nat, align: nat, extra: nat)
    requires Inv(s) && CanRequest(s, i, h, incr, align, extra)
    requires Core(Placed(s, i, h, incr, align, extra))
    ensures Indexed(Attached(s, i, h, incr, align, extra))
  {
    var t := Placed(s, i, h, incr, align, extra);
    if i < s.cut {
      ChangedBlockIndex(s, t, i);
      Relink(t, i);
    } else {
      IndexedByPrefix(s, t);
    }
  }

  lemma RequestInList(s: State, i: nat, h: Incoming, incr: nat, align: nat, extra: nat)
    requires CanRequest(s, i, h, incr, align, extra)
    ensures i < |s.blocks|
  {
  }

  lemma PlacedCore(s: State, i: nat, h: Incoming, incr: nat, align: nat, extra: nat)
    requires Inv(s) && CanRequest(s, i, h, incr, align, extra)
    requires TryAttach(s, i, incr, align, extra) >= 0
    ensures Core(Placed(s, i, h, incr, align, extra))
  {
    hide Shape, Prefix, Distinct, Ordered, StrictlyOrdered, AllSorted, HeadsDistinct, Indexed, CanRequest, TryAttach;
    assert i < |s.blocks| by { RequestInList(s, i, h, incr, align, extra); }
    var t := Placed(s, i, h, incr, align, extra);
    SameList(s, t);
    PlacedOrdered(s, i, h, incr, align, extra);
    AttachHeads(s, i, h, incr, align, extra);
  }

  lemma AttachInv(s: State, i: nat, h: Incoming, incr: nat, align: nat, extra: nat)
    requires Inv(s) && CanRequest(s, i, h, incr, align, extra)
    requires TryAttach(s, i, incr, align, extra) >= 0
    ensures Inv(Attached(s, i, h, incr, align, extra))
    ensures StrictlyOrdered(s) ==> StrictlyOrdered(Attached(s, i, h, incr, align, extra))
  {
    var t := Placed(s, i, h, incr, align, extra);
    PlacedCore(s, i, h, incr, align, extra);
    PlacedOrdered(s, i, h, incr, align, extra);
    AttachIndexed(s, i, h, incr, align, extra);
    UpdateMappedRest(t, i);
    CoreSame(t, Attached(s, i, h, incr, align, extra));
  }

  // ----------------------------------------------------------------- map

  lemma MapBlockValue(s: State)
    requires s.cut < |s.blocks| && !Mapped(s.blocks[s.cut])
    ensures MapBlock(s, s.cut)
         == UpdateMapped(Addressed(s, s.cut), s.cut).(tail := s.tail + Size(s.bits, s.blocks[s.cut]))
  {
    UpdateMappedRest(Addressed(s, s.cut), s.cut);
  }

  lemma AddressedList(s: State, t: State)
    requires Shape(s) && Prefix(s) && Distinct(s) && s.cut < |s.blocks| && s.tail < NULL_ADDR
    requires t.blocks == s.blocks[s.cut := s.blocks[s.cut].(addr := s.tail)] && t.cut == s.cut + 1 && t.bits == s.bits
    ensures Shape(t) && Prefix(t) && Distinct(t)
  {
    assert forall j :: 0 <= j < |t.blocks| && j != s.cut ==> t.blocks[j] == s.blocks[j];
  }

  lemma AddressedCore(s: State)
    requires Inv(s) && s.cut < |s.blocks| && s.tail < NULL_ADDR
    ensures var t := Addressed(s, s.cut).(tail := s.tail + Size(s.bits, s.blocks[s.cut]));
      Core(t) && (StrictlyOrdered(s) ==> StrictlyOrdered(t))
  {
    hide Shape, Prefix, Distinct, Ordered, StrictlyOrdered, AllSorted, HeadsDistinct, BlkRoundUp;
    var t := Addressed(s, s.cut).(tail := s.tail + Size(s.bits, s.blocks[s.cut]));
    AddressedList(s, t);
    SameHeads(s, t);
    MappedNextOrdered(s, t);
  }

  lemma MappedNextOrdered(s: State, t: State)
    requires s.cut < |s.blocks| == |t.blocks| && t.cut == s.cut + 1 && t.bits == s.bits
    requires forall j :: 0 <= j < s.cut ==> t.blocks[j] == s.blocks[j]
    requires t.blocks[s.cut].addr == s.tail && t.tail == EndAddr(t.bits, t.blocks[s.cut])
    ensures Ordered(s) ==> Ordered(t)
    ensures StrictlyOrdered(s) ==> StrictlyOrdered(t)
  {
    hide Size;
    if Ordered(s) {
      forall i, j | 0 <= i < j < t.cut && t.blocks[i].off > 0 && t.blocks[j].off > 0
        ensures EndAddr(t.bits, t.blocks[i]) <= t.blocks[j].addr
      {
        assert t.blocks[i] == s.blocks[i];
      }
    }
  }

  lemma MapIndexed(s: State)
    requires Inv(s) && s.cut < |s.blocks| && Distinct(Addressed(s, s.cut))
    requires Mapped(Addressed(s, s.cut).blocks[s.cut])
    ensures Indexed(UpdateMapped(Addressed(s, s.cut), s.cut))
  {
    hide Ordered, StrictlyOrdered, AllSorted, HeadsDistinct, BlkRoundUp;
    var t := Addressed(s, s.cut);
    ChangedBlockIndex(s, t, s.cut);
    Relink(t, s.cut);
  }

  lemma NextIsUnmapped(s: State)
    requires Prefix(s) && s.cut < |s.blocks|
    ensures !Mapped(s.blocks[s.cut])
  {
  }

  lemma MapBlockInv(s: State)
    requires Inv(s) && s.cut < |s.blocks| && s.tail < NULL_ADDR
    ensures Inv(MapBlock(s, s.cut))
    ensures StrictlyOrdered(s) ==> StrictlyOrdered(MapBlock(s, s.cut))
  {
    hide Shape, Prefix, Distinct, Ordered, StrictlyOrdered, AllSorted, HeadsDistinct, Indexed, UpdateMapped, BlkRoundUp;
    NextIsUnmapped(s);
    var t := Addressed(s, s.cut);
    var u := t.(tail := s.tail + Size(s.bits, s.blocks[s.cut]));
    AddressedCore(s);
    DistinctSame(u, t);
    MapBlockValue(s);
    UpdateMappedRest(t, s.cut);
    CoreSame(u, MapBlock(s, s.cut));
    MapIndexed(s);
    CutInList(MapBlock(s, s.cut));
    SameIndex(UpdateMapped(t, s.cut), MapBlock(s, s.cut));
  }

  lemma DistinctSame(s: State, t: State)
    requires Distinct(s) && t.blocks == s.blocks
    ensures Distinct(t)
  {
  }

  lemma SameIndex(s: State, t: State)
    requires Indexed(s) && s.cut <= |s.blocks|
    requires t.blocks == s.blocks && t.cut == s.cut && t.bits == s.bits && t.buckets == s.buckets
    ensures Indexed(t)
  {
    IndexedByPrefix(s, t);
  }

  /** `MapBhInternal` on a block that is mapped already can only raise the tail. */
  lemma MapMappedInv(s: State, i: nat)
    requires Inv(s) && i < s.cut
    ensures Inv(MapBlock(s, i)) && MapBlock(s, i).(tail := s.tail) == s && MapBlock(s, i).tail >= s.tail
    ensures StrictlyOrdered(s) || s.blocks[i].off > 0 ==> MapBlock(s, i) == s
    ensures StrictlyOrdered(s) ==> StrictlyOrdered(MapBlock(s, i))
  {
    hide Indexed, AllSorted, HeadsDistinct, Distinct, BlkRoundUp;
    BlkRoundUpZero(s.bits);
    var t := MapBlock(s, i);
    CutInList(s);
    assert t.blocks == s.blocks && t.cut == s.cut;
    SameHeads(s, t);
    SameIndex(s, t);
    SameList(s, t);
  }

  // ---------------------------------------------------------------- free

  lemma FreeShift(s: State, i: nat)
    requires i < |s.blocks|
    ensures var t := Free(s, i);
      && |t.blocks| == |s.blocks| - 1
      && forall j :: 0 <= j < |t.blocks| ==> t.blocks[j] == s.blocks[if j < i then j else j + 1]
  {
  }

  lemma FreeIndexed(s: State, i: nat)
    requires Indexed(s) && Distinct(s) && s.cut <= |s.blocks| && i < |s.blocks|
    ensures Indexed(Free(s, i))
  {
    hide KeyOf;
    var t := Free(s, i);
    UnlinkAllContents(s.buckets, s.blocks[i].ref);
    FreeShift(s, i);
    forall k, r | k in t.buckets && r in t.buckets[k] ensures Belongs(t, r, k) { FreeBelongs(s, i, k, r); }
    forall j | 0 <= j < t.cut && j < |t.blocks|
      ensures KeyOf(t.bits, t.blocks[j]) in t.buckets && t.blocks[j].ref in t.buckets[KeyOf(t.bits, t.blocks[j])]
    {
      var j' := if j < i then j else j + 1;
      assert t.blocks[j] == s.blocks[j'] && s.blocks[j'].ref != s.blocks[i].ref;
    }
  }

  lemma FreeBelongs(s: State, i: nat, k: Key, r: BufferBlock)
    requires Indexed(s) && s.cut <= |s.blocks| && i < |s.blocks|
    requires k in s.buckets && r in UnlinkAll(s.buckets, s.blocks[i].ref)[k]
    ensures Belongs(Free(s, i), r, k)
  {
    hide KeyOf, UnlinkAll, NoDup;
    var t := Free(s, i);
    UnlinkAllContents(s.buckets, s.blocks[i].ref);
    FreeShift(s, i);
    assert Belongs(s, r, k);
    var j :| 0 <= j < s.cut && j < |s.blocks| && s.blocks[j].ref == r && KeyOf(s.bits, s.blocks[j]) == k;
    assert j != i;
    var j' := if j < i then j else j - 1;
    assert t.blocks[j'] == s.blocks[j];
  }

  lemma FreeKeepsOrdered(s: State, i: nat)
    requires Prefix(s) && i < |s.blocks| && Ordered(s)
    ensures Ordered(Free(s, i))
  {
    hide EndAddr;
    var t := Free(s, i);
    FreeShift(s, i);
    forall j, l | 0 <= j < l < t.cut && t.blocks[j].off > 0 && t.blocks[l].off > 0
      ensures EndAddr(t.bits, t.blocks[j]) <= t.blocks[l].addr
    {
      FreeMapped(s, i, j);
      FreeMapped(s, i, l);
    }
    forall j | 0 <= j < t.cut && t.blocks[j].off > 0 ensures EndAddr(t.bits, t.blocks[j]) <= t.tail {
      FreeMapped(s, i, j);
    }
  }

  lemma FreeKeepsStrict(s: State, i: nat)
    requires Prefix(s) && i < |s.blocks| && StrictlyOrdered(s)
    ensures StrictlyOrdered(Free(s, i))
  {
    hide EndAddr;
    var t := Free(s, i);
    FreeShift(s, i);
    forall j, l | 0 <= j < l < t.cut ensures EndAddr(t.bits, t.blocks[j]) <= t.blocks[l].addr {
      FreeMapped(s, i, j);
      FreeMapped(s, i, l);
    }
    forall j | 0 <= j < t.cut ensures EndAddr(t.bits, t.blocks[j]) <= t.tail { FreeMapped(s, i, j); }
  }

  lemma FreeOrdered(s: State, i: nat)
    requires Prefix(s) && i < |s.blocks|
    ensures Ordered(s) ==> Ordered(Free(s, i))
    ensures StrictlyOrdered(s) ==> StrictlyOrdered(Free(s, i))
  {
    if Ordered(s) { FreeKeepsOrdered(s, i); }
    if StrictlyOrdered(s) { FreeKeepsStrict(s, i); }
  }

  lemma FreeMapped(s: State, i: nat, j: nat)
    requires Prefix(s) && i < |s.blocks| && j < Free(s, i).cut
    ensures (if j < i then j else j + 1) < s.cut && j < |Free(s, i).blocks|
    ensures Free(s, i).blocks[j] == s.blocks[if j < i then j else j + 1]
  {
    FreeShift(s, i);
  }

  lemma FreeHeads(s: State, i: nat)
    requires i < |s.blocks| && HeadsDistinct(s) && AllSorted(s)
    ensures HeadsDistinct(Free(s, i)) && AllSorted(Free(s, i))
  {
    var t := Free(s, i);
    FreeShift(s, i);
    forall i1: nat, k: nat, j: nat, l: nat |
      IsHead(t, i1, k) && IsHead(t, j, l) && t.blocks[i1].heads[k].ref == t.blocks[j].heads[l].ref
      ensures i1 == j && k == l
    {
      assert IsHead(s, if i1 < i then i1 else i1 + 1, k) && IsHead(s, if j < i then j else j + 1, l);
    }
    forall j | 0 <= j < |t.blocks| ensures HeadsSorted(t.blocks[j]) {
      assert HeadsSorted(s.blocks[if j < i then j else j + 1]);
    }
  }

  lemma FreeList(s: State, i: nat)
    requires i < |s.blocks| && Shape(s) && Prefix(s) && Distinct(s)
    ensures Shape(Free(s, i)) && Prefix(Free(s, i)) && Distinct(Free(s, i))
  {
    FreeShift(s, i);
  }

  lemma FreeLast(s: State, i: nat)
    requires Prefix(s) && Distinct(s) && i < |s.blocks|
    ensures s.cut <= |s.blocks| && Free(s, i).cut <= |Free(s, i).blocks|
    ensures LastMapped(Free(s, i)) ==
      if LastMapped(s) != s.blocks[i].ref then LastMapped(s) else if i == 0 then null else s.blocks[i - 1].ref
  {
    FreeShift(s, i);
    if s.cut > 0 && LastMapped(s) == s.blocks[i].ref {
      assert i == s.cut - 1;
    }
  }

  /** The invariant is kept, and if the block was the last mapped one its
      predecessor in the list is that now. */
  lemma FreeInv(s: State, i: nat)
    requires Inv(s) && i < |s.blocks|
    ensures Inv(Free(s, i))
    ensures StrictlyOrdered(s) ==> StrictlyOrdered(Free(s, i))
    ensures s.cut <= |s.blocks| && Free(s, i).cut <= |Free(s, i).blocks|
    ensures LastMapped(Free(s, i)) ==
      if LastMapped(s) != s.blocks[i].ref then LastMapped(s) else if i == 0 then null else s.blocks[i - 1].ref
  {
    FreeLast(s, i);
    FreeList(s, i);
    FreeOrdered(s, i);
    FreeHeads(s, i);
    FreeIndexed(s, i);
  }

  // ------------------------------------------------- fewer heads, and drop

  /** `hs` is `gs` with some heads left out. */
  ghost predicate Thinned(hs: seq<HeadV>, gs: seq<HeadV>, f: seq<nat>) {
    && |f| == |hs|
    && (forall k :: 0 <= k < |f| ==> f[k] < |gs| && hs[k] == gs[f[k]])
    && (forall k, l :: 0 <= k < l < |f| ==> f[k] < f[l])
  }

  lemma ThinnedHeads(s: State, i: nat, hs: seq<HeadV>, f: seq<nat>)
    requires HeadsDistinct(s) && AllSorted(s) && i < |s.blocks| && Thinned(hs, s.blocks[i].heads, f)
    ensures var t := s.(blocks := s.blocks[i := s.blocks[i].(heads := hs)]); HeadsDistinct(t) && AllSorted(t)
  {
    var t := s.(blocks := s.blocks[i := s.blocks[i].(heads := hs)]);
    assert HeadsSorted(s.blocks[i]);
    forall i1: nat, k: nat, j: nat, l: nat |
      IsHead(t, i1, k) && IsHead(t, j, l) && t.blocks[i1].heads[k].ref == t.blocks[j].heads[l].ref
      ensures i1 == j && k == l
    {
      assert IsHead(s, i1, if i1 == i then f[k] else k) && IsHead(s, j, if j == i then f[l] else l);
    }
    forall j | 0 <= j < |t.blocks| ensures HeadsSorted(t.blocks[j]) { assert HeadsSorted(s.blocks[j]); }
  }

  lemma ThinnedInv(s: State, i: nat, hs: seq<HeadV>, f: seq<nat>)
    requires Inv(s) && i < |s.blocks| && Thinned(hs, s.blocks[i].heads, f)
    ensures Inv(s.(blocks := s.blocks[i := s.blocks[i].(heads := hs)]))
    ensures StrictlyOrdered(s) ==> StrictlyOrdered(s.(blocks := s.blocks[i := s.blocks[i].(heads := hs)]))
  {
    hide Shape, Prefix, Distinct, Ordered, StrictlyOrdered, AllSorted, HeadsDistinct, Indexed, Thinned;
    var t := s.(blocks := s.blocks[i := s.blocks[i].(heads := hs)]);
    CutInList(s);
    ThinnedHeads(s, i, hs, f);
    OrderedByPrefix(s, t);
    IndexedByPrefix(s, t);
    SameList(s, t);
  }

  lemma SameList(s: State, t: State)
    requires |t.blocks| == |s.blocks| && t.cut == s.cut && t.bits == s.bits
    requires forall j :: 0 <= j < |s.blocks| ==>
      && t.blocks[j].ref == s.blocks[j].ref && t.blocks[j].typ == s.blocks[j].typ && t.blocks[j].addr == s.blocks[j].addr
    ensures Shape(s) ==> Shape(t)
    ensures Prefix(s) ==> Prefix(t)
    ensures Distinct(s) ==> Distinct(t)
  {
  }

  lemma DropInv(s: State, i: nat, k: nat, revoke: bool)
    requires Inv(s) && IsHead(s, i, k)
    ensures Inv(Drop(s, i, k, revoke))
  {
    hide Shape, Prefix, Distinct, Ordered, StrictlyOrdered, AllSorted, HeadsDistinct, Indexed;
    var b := s.blocks[i];
    var hs := WithoutHead(b, k).heads;
    assert b.(heads := hs) == WithoutHead(b, k);
    CutInList(s);
    ThinnedInv(s, i, hs, seq(|hs|, l requires 0 <= l < |hs| => if l < k then l else l + 1));
    if |b.heads| == 1 {
      var t := s.(blocks := s.blocks[i := WithoutHead(b, k)]);
      var u := Drop(s, i, k, revoke);
      FreeInv(t, i);
      SameHeads(Free(t, i), u);
      SameIndex(Free(t, i), u);
      SameList(Free(t, i), u);
      DropOrdered(s, i, k, revoke);
    }
  }

  /** Giving back the address of the block at the tail leaves every other
      non-empty extent below the lowered tail. */
  lemma DropOrdered(s: State, i: nat, k: nat, revoke: bool)
    requires Inv(s) && IsHead(s, i, k) && |s.blocks[i].heads| == 1
    ensures Ordered(Drop(s, i, k, revoke))
  {
    hide EndAddr;
    var t := s.(blocks := s.blocks[i := WithoutHead(s.blocks[i], k)]);
    var u := Drop(s, i, k, revoke);
    PrefixOf(s);
    SameList(s, t);
    OrderedByPrefix(s, t);
    FreeKeepsOrdered(t, i);
    if Revokes(s, i, revoke) {
      forall j | 0 <= j < u.cut && u.blocks[j].off > 0 ensures EndAddr(u.bits, u.blocks[j]) <= u.tail {
        var j' := if j < i then j else j + 1;
        FreeMapped(t, i, j);
        BelowRevoked(s, i, j');
        SameEnd(s.bits, s.blocks[j'], u.blocks[j]);
      }
    }
  }

  lemma SameEnd(bits: nat, b: BlockV, c: BlockV)
    requires b.addr == c.addr && b.off == c.off
    ensures EndAddr(bits, b) == EndAddr(bits, c)
  {
  }

  /** What is left lies below a block that gives its address back. */
  lemma BelowRevoked(s: State, i: nat, j: nat)
    requires Inv(s) && i < |s.blocks| && TouchesTail(s, i) && j < s.cut && j != i && s.blocks[j].off > 0
    ensures EndAddr(s.bits, s.blocks[j]) <= s.blocks[i].addr
  {
    if s.blocks[i].off == 0 { BlkRoundUpZero(s.bits); }
    BlkRoundUpPositive(s.bits, s.blocks[j].off);
  }
}
