/** The buffer manager as a value, and each operation of pkg/types/helper.go and
    pkg/types/internal.go as a function from value to value.

    Objects appear only as identities. `cut` is the number of blocks up to and
    including `LastMappedBlock`; it is zero when that points to the list head.
    Addresses are unbounded here: `Fits` says when the 32-bit fields of the
    source hold them, and every step of a run is required to keep it. The
    metadata count wraps as it does in the source. */
module Layout {
  import opened Rounding
  import opened Objects

  datatype HeadV = HeadV(ref: BufferHead, off: nat, op: HeadOp)

  datatype BlockV = BlockV(ref: BufferBlock, addr: nat, typ: int, off: nat, heads: seq<HeadV>)

  /** A bucket is named by block type and by fill of the last block. */
  type Key = (int, nat)

  datatype State = State(
    bits: nat,
    blocks: seq<BlockV>,
    cut: nat,
    tail: nat,
    meta: nat,
    buckets: map<Key, seq<BufferBlock>>,
    dev: seq<byte>)

  /** The head a request brings along; growing the tail head brings none. */
  datatype Incoming = NoHead | Fresh(ref: BufferHead, op: HeadOp)

  function BlkSiz(s: State): (r: nat)
    ensures r > 0
  {
    Pow2(s.bits)
  }

  predicate Mapped(b: BlockV) { b.addr != NULL_ADDR }

  /** Blocks of the image that a buffer block occupies. */
  function Size(bits: nat, b: BlockV): nat { BlkRoundUp(bits, b.off) }

  function KeyOf(bits: nat, b: BlockV): Key { (b.typ, b.off % Pow2(bits)) }

  // ------------------------------------------------------------ operations

  predicate IsKey(k: Key) { (k.0 == DATA || k.0 == META) && k.1 < 4096 }

  /** `ErofsBufferInit`. */
  function Init(bits: nat, startblk: nat, dev: seq<byte>): State {
    State(bits, [], 0, startblk, 0,
          map t, k: nat | t in {DATA, META} && 0 <= k < 4096 :: (t, k) := [], dev)
  }

  /** The new-block arm of `Balloc`: data blocks go behind the last mapped
      block, all others to the end of the list. */
  function NewBlock(s: State, ref: BufferBlock, typ: int): State
    requires s.cut <= |s.blocks|
  {
    var p := if typ == DATA then s.cut else |s.blocks|;
    s.(blocks := s.blocks[..p] + [BlockV(ref, NULL_ADDR, typ, 0, [])] + s.blocks[p..])
  }

  /** A list without the entry `r`. */
  function Unlink(q: seq<BufferBlock>, r: BufferBlock): seq<BufferBlock> {
    if q == [] then []
    else if q[0] == r then Unlink(q[1..], r)
    else [q[0]] + Unlink(q[1..], r)
  }

  function UnlinkAll(m: map<Key, seq<BufferBlock>>, r: BufferBlock): map<Key, seq<BufferBlock>> {
    map k | k in m :: Unlink(m[k], r)
  }

  /** `BupdateMapped`: a mapped block moves to the end of the bucket of its fill. */
  function UpdateMapped(s: State, i: nat): State
    requires i < |s.blocks|
  {
    var b := s.blocks[i];
    var k := KeyOf(s.bits, b);
    if !Mapped(b) || k !in s.buckets then s
    else
      var m := UnlinkAll(s.buckets, b.ref);
      s.(buckets := m[k := m[k] + [b.ref]])
  }

  /** What `BattachInternal` returns, for a dry run and for a real one. */
  function TryAttach(s: State, i: nat, incr: nat, align: nat, extra: nat): int
    requires i < |s.blocks|
  {
    var b := s.blocks[i];
    if Oob(s.bits, b.off, incr, align, extra) > 0
       && ((i + 1 < |s.blocks| && Mapped(s.blocks[i + 1]))
           || (Mapped(b) && !TouchesTail(s, i)))
    then -EINVAL
    else LastFill(s.bits, RoundUp(b.off, align) + incr)
  }

  /** A buffer block after a request of `incr` bytes was attached to it. */
  function Grown(b: BlockV, h: Incoming, incr: nat, align: nat): BlockV {
    var start := RoundUp(b.off, align);
    b.(off := start + incr,
       heads := if h.NoHead? then b.heads else b.heads + [HeadV(h.ref, start, h.op)])
  }

  /** Whether the block ends at the tail, so that growth moves the tail. */
  predicate TouchesTail(s: State, i: nat)
    requires i < |s.blocks|
  {
    Mapped(s.blocks[i]) && s.tail == s.blocks[i].addr + Size(s.bits, s.blocks[i])
  }

  /** `BattachInternal` up to its call of `BupdateMapped`. */
  function Placed(s: State, i: nat, h: Incoming, incr: nat, align: nat, extra: nat): State
    requires i < |s.blocks|
  {
    var b := s.blocks[i];
    var b' := Grown(b, h, incr, align);
    s.(blocks := s.blocks[i := b'],
       tail := if Oob(s.bits, b.off, incr, align, extra) >= 0 && TouchesTail(s, i)
               then b.addr + Size(s.bits, b') else s.tail)
  }

  /** `BattachInternal` when it is not a dry run and does not fail. */
  function Attached(s: State, i: nat, h: Incoming, incr: nat, align: nat, extra: nat): State
    requires i < |s.blocks|
  {
    UpdateMapped(Placed(s, i, h, incr, align, extra), i)
  }

  /** `MapBhInternal` up to its call of `BupdateMapped`. */
  function Addressed(s: State, i: nat): State
    requires i < |s.blocks|
  {
    s.(blocks := s.blocks[i := s.blocks[i].(addr := s.tail)], cut := i + 1)
  }

  /** `MapBhInternal`. */
  function MapBlock(s: State, i: nat): (r: State)
    requires i < |s.blocks|
    ensures |r.blocks| == |s.blocks|
  {
    var s' := if Mapped(s.blocks[i]) then s else UpdateMapped(Addressed(s, i), i);
    var end := s'.blocks[i].addr + Size(s.bits, s'.blocks[i]);
    if end > s'.tail then s'.(tail := end) else s'
  }

  /** The loop of `MapBh`: everything behind the last mapped block up to and
      including position `j`, or up to the end of the list. */
  function MapUpto(s: State, j: nat): State
    decreases |s.blocks| - s.cut
  {
    if s.cut > j || s.cut >= |s.blocks| || Mapped(s.blocks[s.cut]) then s
    else MapUpto(MapBlock(s, s.cut), j)
  }

  /** `ErofsBfree`. */
  function Free(s: State, i: nat): State
    requires i < |s.blocks|
  {
    s.(blocks := s.blocks[..i] + s.blocks[i + 1..],
       cut := if i < s.cut then s.cut - 1 else s.cut,
       buckets := UnlinkAll(s.buckets, s.blocks[i].ref))
  }

  /** The condition under which `BDrop` gives the address of the block back. */
  predicate Revokes(s: State, i: nat, revoke: bool)
    requires i < |s.blocks|
  {
    revoke && TouchesTail(s, i)
  }

  function WithoutHead(b: BlockV, k: nat): BlockV
    requires k < |b.heads|
  {
    b.(heads := b.heads[..k] + b.heads[k + 1..])
  }

  /** `BDrop`. */
  function Drop(s: State, i: nat, k: nat, revoke: bool): State
    requires i < |s.blocks| && k < |s.blocks[i].heads|
  {
    var b := s.blocks[i];
    var s' := s.(blocks := s.blocks[i := WithoutHead(b, k)]);
    if |b.heads| > 1 then s'
    else
      var r := Revokes(s, i, revoke);
      Free(s', i).(meta := if !r && b.typ != DATA then U32(s.meta + Size(s.bits, b)) else s.meta,
                   tail := if r then b.addr else s.tail)
  }

  /** The heads that stay when a block is flushed: those without an operation
      and those that skip the write. */
  function Kept(hs: seq<HeadV>): seq<HeadV> {
    if hs == [] then []
    else if hs[0].op == DropDirectly then Kept(hs[1..])
    else [hs[0]] + Kept(hs[1..])
  }

  predicate Skips(hs: seq<HeadV>) { exists k :: 0 <= k < |hs| && hs[k].op == SkipWrite }

  /** Index of the first head whose flush fails, or the number of heads. */
  function FirstBusy(hs: seq<HeadV>): (r: nat)
    ensures r <= |hs|
    ensures forall k :: 0 <= k < r ==> hs[k].op != Busy
    ensures r < |hs| ==> hs[r].op == Busy
  {
    if hs == [] || hs[0].op == Busy then 0 else 1 + FirstBusy(hs[1..])
  }

  /** Bytes between the end of the data and the end of the last block. */
  function Padding(bits: nat, off: nat): nat {
    if off % Pow2(bits) == 0 then 0 else Pow2(bits) - off % Pow2(bits)
  }

  lemma PaddingFills(bits: nat, off: nat)
    ensures off + Padding(bits, off) == ExtentEnd(bits, off)
  {
    var b := Pow2(bits);
    var q, r := off / b, off % b;
    DivMod(off, b);
    if r > 0 {
      BlkRoundUpOf(bits, off, q, r);
    } else if off == 0 {
      BlkRoundUpZero(bits);
    } else {
      assert q > 0 by { MulBound(q, b); }
      assert (q - 1) * b == q * b - b;
      BlkRoundUpOf(bits, off, q - 1, b);
    }
  }

  /** The padding starts where the data ends. */
  lemma PaddingEnds(bits: nat, off: nat, addr: nat)
    ensures (addr + BlkRoundUp(bits, off)) * Pow2(bits) - Padding(bits, off) == addr * Pow2(bits) + off
  {
    PaddingFills(bits, off);
    Distribute(addr, BlkRoundUp(bits, off), Pow2(bits));
  }

  lemma Distribute(x: nat, y: nat, d: nat)
    ensures (x + y) * d == x * d + y * d
  {
  }

  /** Zeroes the padding of block `i`, accounts for it and frees it. */
  function Retire(s: State, i: nat): State
    requires i < |s.blocks|
  {
    var b := s.blocks[i];
    var pad := Padding(s.bits, b.off);
    PaddingEnds(s.bits, b.off, b.addr);
    var end := (b.addr + Size(s.bits, b)) * BlkSiz(s);
    Free(s.(meta := if b.typ != DATA then U32(s.meta + Size(s.bits, b)) else s.meta,
            dev := if pad == 0 then s.dev else Pwrite(s.dev, end - pad, Zeros(pad))), i)
  }

  datatype Flushed = Flushed(state: State, ret: int)

  /** Runs the flush operations of the heads of block `i` up to a failing one. */
  function Visited(s: State, i: nat): State
    requires i < |s.blocks|
  {
    var b := s.blocks[i];
    var n := FirstBusy(b.heads);
    s.(blocks := s.blocks[i := b.(heads := Kept(b.heads[..n]) + b.heads[n..])])
  }

  /** `ErofsBflush` from position `i` on; it stops in front of block `stop`. */
  function FlushFrom(s: State, i: nat, stop: BufferBlock?): Flushed
    decreases |s.blocks| - i
  {
    if i >= |s.blocks| || s.blocks[i].ref == stop then Flushed(s, 0)
    else
      var hs := s.blocks[i].heads;
      var f := Visited(MapBlock(s, i), i);
      if FirstBusy(hs) < |hs| then Flushed(f, -EBUSY)
      else if Skips(hs) then FlushFrom(f, i + 1, stop)
      else FlushFrom(Retire(f, i), i, stop)
  }

  /** `BhTell`, for the start of head `k` of block `i` and for its end, which is
      the start of the next head or the end of the block. */
  function TellOff(b: BlockV, k: nat, end: bool): nat
    requires k < |b.heads|
  {
    if !end then b.heads[k].off
    else if k + 1 < |b.heads| then b.heads[k + 1].off
    else b.off
  }

  function Tell(s: State, i: nat, k: nat, end: bool): nat
    requires IsHead(s, i, k)
  {
    var b := s.blocks[i];
    if !Mapped(b) then NULL_ADDR_UL else b.addr * BlkSiz(s) + TellOff(b, k, end)
  }

  predicate IsHead(s: State, i: nat, k: nat) { i < |s.blocks| && k < |s.blocks[i].heads| }

  /** What callers do with the heads they got: they set the flush operation, and
      they write to the device at the position of a mapped head. */
  function WithOp(s: State, i: nat, k: nat, op: HeadOp): State
    requires IsHead(s, i, k)
  {
    var b := s.blocks[i];
    s.(blocks := s.blocks[i := b.(heads := b.heads[k := b.heads[k].(op := op)])])
  }

  function Written(s: State, i: nat, k: nat, skip: nat, data: seq<byte>): State
    requires IsHead(s, i, k)
  {
    s.(dev := Pwrite(s.dev, Tell(s, i, k, false) + skip, data))
  }

  /** The block `LastMappedBlock` points to, if it is not the list head. */
  function LastMapped(s: State): BufferBlock?
    requires s.cut <= |s.blocks|
  {
    if s.cut == 0 then null else s.blocks[s.cut - 1].ref
  }

  // ------------------------------------------------------------- invariant

  /** The first `cut` blocks are mapped and no others are. */
  ghost predicate Prefix(s: State) {
    && s.cut <= |s.blocks|
    && (forall i :: 0 <= i < |s.blocks| ==> (Mapped(s.blocks[i]) <==> i < s.cut))
    && (forall i :: 0 <= i < |s.blocks| ==> s.blocks[i].addr <= NULL_ADDR)
  }

  ghost predicate Shape(s: State) {
    && ValidBits(s.bits)
    && forall i :: 0 <= i < |s.blocks| ==> s.blocks[i].typ == DATA || s.blocks[i].typ == META
  }

  /** Every list node occurs once. */
  ghost predicate Distinct(s: State) {
    forall i, j :: 0 <= i < j < |s.blocks| ==> s.blocks[i].ref != s.blocks[j].ref
  }

  function EndAddr(bits: nat, b: BlockV): nat { b.addr + Size(bits, b) }

  /** The non-empty extents ascend in list order without overlap, and the tail
      address bounds them. */
  ghost predicate Ordered(s: State) {
    && s.cut <= |s.blocks|
    && (forall i, j :: 0 <= i < j < s.cut && s.blocks[i].off > 0 && s.blocks[j].off > 0
          ==> EndAddr(s.bits, s.blocks[i]) <= s.blocks[j].addr)
    && (forall i :: 0 <= i < s.cut && s.blocks[i].off > 0 ==> EndAddr(s.bits, s.blocks[i]) <= s.tail)
  }

  /** `Ordered` without the exception for empty extents. */
  ghost predicate StrictlyOrdered(s: State) {
    && s.cut <= |s.blocks|
    && (forall i, j :: 0 <= i < j < s.cut ==> EndAddr(s.bits, s.blocks[i]) <= s.blocks[j].addr)
    && (forall i :: 0 <= i < s.cut ==> EndAddr(s.bits, s.blocks[i]) <= s.tail)
  }

  ghost predicate HeadsSorted(b: BlockV) {
    && (forall k, l :: 0 <= k < l < |b.heads| ==> b.heads[k].off <= b.heads[l].off)
    && (forall k :: 0 <= k < |b.heads| ==> b.heads[k].off <= b.off)
  }

  ghost predicate AllSorted(s: State) {
    forall i :: 0 <= i < |s.blocks| ==> HeadsSorted(s.blocks[i])
  }

  /** No head is linked twice, in one block or in two. */
  ghost predicate HeadsDistinct(s: State) {
    forall i: nat, k: nat, j: nat, l: nat ::
      IsHead(s, i, k) && IsHead(s, j, l) && s.blocks[i].heads[k].ref == s.blocks[j].heads[l].ref
      ==> i == j && k == l
  }

  ghost predicate NoDup(q: seq<BufferBlock>) {
    forall i, j :: 0 <= i < j < |q| ==> q[i] != q[j]
  }

  /** Some mapped block with identity `r` belongs into bucket `k`. */
  ghost predicate Belongs(s: State, r: BufferBlock, k: Key) {
    exists i :: 0 <= i < s.cut && i < |s.blocks| && s.blocks[i].ref == r && KeyOf(s.bits, s.blocks[i]) == k
  }

  /** The buckets index exactly the mapped blocks by type and fill. */
  ghost predicate Indexed(s: State) {
    && (forall k :: k in s.buckets <==> IsKey(k))
    && (forall k :: k in s.buckets ==> NoDup(s.buckets[k]))
    && (forall k, r :: k in s.buckets && r in s.buckets[k] ==> Belongs(s, r, k))
    && (forall i :: 0 <= i < s.cut && i < |s.blocks| ==>
          KeyOf(s.bits, s.blocks[i]) in s.buckets
          && s.blocks[i].ref in s.buckets[KeyOf(s.bits, s.blocks[i])])
  }

  ghost predicate Inv(s: State) {
    && Shape(s) && Prefix(s) && Distinct(s) && Ordered(s)
    && AllSorted(s) && HeadsDistinct(s) && Indexed(s)
  }

  /** Blocks that the unmapped part of the list still needs. */
  function Pending(bits: nat, bs: seq<BlockV>): nat {
    if bs == [] then 0 else Size(bits, bs[0]) + Pending(bits, bs[1..])
  }

  /** There is room for `n` more blocks below the null address. */
  ghost predicate Room(s: State, n: nat) {
    && s.cut <= |s.blocks|
    && s.tail + Pending(s.bits, s.blocks[s.cut..]) + n < NULL_ADDR
    && forall i :: 0 <= i < s.cut ==> s.blocks[i].addr + Pending(s.bits, s.blocks[s.cut..]) + n < NULL_ADDR
  }

  /** No address the manager hands out for its blocks reaches the null address. */
  ghost predicate Fits(s: State) { Room(s, 0) }
}
