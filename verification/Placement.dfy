/** The choice of a buffer block in `BfindForAttach`, as a plain scan over the
    block list, and what the bucket index has to do with it. */
module Placement {
  import opened Rounding
  import opened Objects
  import opened Layout
  import opened LayoutInv
  import opened Mapping

  /** The arguments of `BfindForAttach`; `inl` bytes follow the `req` bytes that
      follow the `size` bytes, and have to stay within one block. */
  datatype Request = Request(typ: int, size: nat, req: nat, inl: nat, align: nat)

  function Total(q: Request): nat { q.size + q.req + q.inl }

  /** The type and alignment come from `GetAlignSize`; the sizes fit the 32-bit
      arithmetic of the source. */
  ghost predicate WellFormed(s: State, q: Request) {
    && (q.typ == DATA || q.typ == META)
    && Divides(q.align, BlkSiz(s))
    && Total(q) + 4096 < TWO_32
  }

  ghost predicate ValidRequest(s: State, q: Request) {
    && WellFormed(s, q)
    && forall i :: 0 <= i < |s.blocks| ==> s.blocks[i].off < 0x1000_0000_0000_0000
  }

  lemma SmallProduct(n: nat, b: nat)
    requires n < TWO_32 && b <= 4096
    ensures n * b < 0x1000_0000_0000
  {
    MulMono(n, TWO_32 - 1, b);
  }

  /** An image that fits has no offset near the 64-bit limit. */
  lemma OffsetsBounded(s: State, i: nat)
    requires Inv(s) && Fits(s) && i < |s.blocks|
    ensures s.blocks[i].off < 0x1000_0000_0000
  {
    var b := s.blocks[i];
    BlockSizes(s.bits);
    if b.off > 0 {
      if i >= s.cut {
        assert s.blocks[s.cut..] == s.blocks[s.cut..i] + ([b] + s.blocks[i + 1..]);
        PendingSplit(s.bits, s.blocks[s.cut..i], [b] + s.blocks[i + 1..]);
        PendingSplit(s.bits, [b], s.blocks[i + 1..]);
        PendingOne(s.bits, b);
      }
      ExtentEndIsRoundUp(s.bits, b.off);
      SmallProduct(Size(s.bits, b), BlkSiz(s));
    }
  }

  lemma RequestIsValid(s: State, q: Request)
    requires Inv(s) && Fits(s) && WellFormed(s, q)
    ensures ValidRequest(s, q)
  {
    forall i | 0 <= i < |s.blocks| ensures s.blocks[i].off < 0x1000_0000_0000_0000 { OffsetsBounded(s, i); }
  }

  function Try(s: State, q: Request, i: nat): int
    requires i < |s.blocks|
  {
    TryAttach(s, i, q.size, q.align, q.req + q.inl)
  }

  /** Fill of the last block of a new buffer block that gets the request. */
  function FreshFill(s: State, q: Request): nat { (q.size + q.req) % BlkSiz(s) + q.inl }

  function Fill(s: State, i: nat): nat
    requires i < |s.blocks|
  {
    s.blocks[i].off % BlkSiz(s)
  }

  /** The block of `LastMappedBlock` is the first entry of the bucket. */
  predicate HeadedByLast(s: State, k: Key) {
    0 < s.cut <= |s.blocks| && k in s.buckets && s.buckets[k] != [] && s.buckets[k][0] == s.blocks[s.cut - 1].ref
  }

  /** Blocks in front of the last mapped one are found through the buckets, the
      others by walking the list. */
  predicate Indexable(s: State, i: nat) { i + 1 < s.cut }

  /** A block that the plain scan considers. */
  predicate Eligible(s: State, q: Request, i: nat)
    requires i < |s.blocks|
  {
    && s.blocks[i].typ == q.typ && Try(s, q, i) >= 0
    && if Indexable(s, i) then
         Total(q) < BlkSiz(s) && !HeadedByLast(s, KeyOf(s.bits, s.blocks[i]))
       else
         && Fill(s, i) != 0 && Used(s, q, i) <= BlkSiz(s)
         && (Used(s, q, i) >= Fill(s, i) || Used(s, q, i) >= FreshFill(s, q))
  }

  /** Fill of the last block after the request and its extensions. */
  function Used(s: State, q: Request, i: nat): int
    requires i < |s.blocks|
  {
    if Indexable(s, i) then Try(s, q, i) + q.req + q.inl
    else (Try(s, q, i) + q.req) % BlkSiz(s) + q.inl
  }

  /** Block `i` is preferred over `j`: more filled; of equally filled ones an
      indexed block first, then the one with the higher present fill, then the
      head of its bucket; of the others the first in the list. */
  ghost predicate Beats(s: State, q: Request, i: nat, j: nat)
    requires i < |s.blocks| && j < |s.blocks|
  {
    || Used(s, q, i) > Used(s, q, j)
    || (Used(s, q, i) == Used(s, q, j) &&
        if Indexable(s, i) then
          Indexable(s, j) ==> Fill(s, i) >= Fill(s, j)
        else
          !Indexable(s, j) && i <= j)
  }

  ghost predicate FirstInBucket(s: State, i: nat)
    requires i < |s.blocks|
  {
    var k := KeyOf(s.bits, s.blocks[i]);
    k in s.buckets && s.buckets[k] != [] && s.buckets[k][0] == s.blocks[i].ref
  }

  ghost predicate BestFit(s: State, q: Request, i: nat) {
    && i < |s.blocks| && Eligible(s, q, i)
    && (Indexable(s, i) ==> FirstInBucket(s, i))
    && forall j :: 0 <= j < |s.blocks| && Eligible(s, q, j) ==> Beats(s, q, i, j)
  }

  /** The preference leaves no choice. */
  lemma BestFitIsUnique(s: State, q: Request, i: nat, j: nat)
    requires Inv(s) && BestFit(s, q, i) && BestFit(s, q, j)
    ensures i == j
  {
    if Indexable(s, i) {
      assert Beats(s, q, i, j) && Beats(s, q, j, i);
      assert KeyOf(s.bits, s.blocks[i]) == KeyOf(s.bits, s.blocks[j]);
    }
  }

  // -------------------------------------------------------- bucket arithmetic

  /** Highest fill a block may have now and still take the request. */
  function HighestFill(s: State, q: Request): nat
    requires 0 < q.align && Total(q) < BlkSiz(s)
  {
    RoundDown(BlkSiz(s) - Total(q), q.align)
  }

  lemma RoundDownUp(u: nat, m: nat, a: nat)
    requires a > 0
    ensures u <= RoundDown(m, a) <==> RoundUp(u, a) <= m
  {
    RoundUpLeast(u, a);
    DivMod(m, a);
    RoundDownMultiple(m, a);
    if RoundUp(u, a) <= m {
      RoundDownGreatest(RoundUp(u, a), m, a);
    }
  }

  lemma RoundDownMultiple(m: nat, a: nat)
    requires a > 0
    ensures RoundDown(m, a) % a == 0 && 0 <= RoundDown(m, a) <= m
  {
    DivMod(m, a);
    ModUnique(RoundDown(m, a), m / a, 0, a);
  }

  lemma RoundDownGreatest(x: nat, m: nat, a: nat)
    requires a > 0 && x % a == 0 && x <= m
    ensures x <= RoundDown(m, a)
  {
    DivMod(x, a);
    DivMod(m, a);
    MulBound(x / a - m / a, a);
    assert (x / a - m / a) * a == x / a * a - m / a * a;
  }

  /** A partly filled last block is what the mask of the offset says. */
  lemma FillIsLastFill(bits: nat, off: nat)
    requires ValidBits(bits) && off < TWO_64
    ensures off % Pow2(bits) != 0 ==> LastFill(bits, off) == off % Pow2(bits)
    ensures off % Pow2(bits) == 0 ==> LastFill(bits, off) == Pow2(bits)
  {
    ReturnedFill(bits, off);
    DivMod(off, Pow2(bits));
    var p := LastFill(bits, off);
    if p < Pow2(bits) {
      ModUnique(p, 0, p, Pow2(bits));
    } else {
      ModUnique(p, 1, 0, Pow2(bits));
    }
  }

  /** The value returned for a request that stays within the last block. */
  lemma ReturnWithinBlock(bits: nat, off: nat, incr: nat, align: nat)
    requires ValidBits(bits) && off + incr + Pow2(bits) < TWO_64 && Divides(align, Pow2(bits))
    requires RoundUp(LastFill(bits, off), align) + incr <= Pow2(bits)
    ensures RoundUp(off, align) + incr < TWO_64
    ensures off > 0 ==>
      LastFill(bits, RoundUp(off, align) + incr) == RoundUp(LastFill(bits, off), align) + incr
  {
    var b := Pow2(bits);
    InBlockRounding(bits, off, align);
    var q := LastFillSplit(bits, off);
    RoundUpLeast(LastFill(bits, off), align);
    ExtentEndIsRoundUp(bits, off);
    var r := RoundUp(LastFill(bits, off), align) + incr;
    var off' := RoundUp(off, align) + incr;
    assert off' == q * b + r;
    if off > 0 { LastFillUnique(bits, off', q, r); }
  }

  lemma LastFillUnique(bits: nat, off: nat, q: nat, p: nat)
    requires 0 < p <= Pow2(bits) && off == q * Pow2(bits) + p && off < TWO_64
    ensures LastFill(bits, off) == p
  {
    U64Small(off - 1);
    ModUnique(off - 1, q, p - 1, Pow2(bits));
  }

  /** For a block in front of the last mapped one, the dry run succeeds exactly
      when the present fill is between one and the start of the bucket search,
      and then everything ends within its last block. */
  lemma IndexedBlockFits(s: State, q: Request, i: nat)
    requires Inv(s) && ValidRequest(s, q) && Indexable(s, i) && 0 < Total(q) < BlkSiz(s)
    ensures Try(s, q, i) >= 0 <==> 0 < Fill(s, i) <= HighestFill(s, q)
    ensures Try(s, q, i) >= 0 ==>
      Try(s, q, i) == RoundUp(Fill(s, i), q.align) + q.size && Used(s, q, i) <= BlkSiz(s)
  {
    hide RoundUp, RoundDown, LastFill, Pow2;
    var off := s.blocks[i].off;
    var p := LastFill(s.bits, off);
    BlockSizes(s.bits);
    FillIsLastFill(s.bits, off);
    RoundUpLeast(p, q.align);
    DivMod(off, BlkSiz(s));
    RoundDownUp(Fill(s, i), BlkSiz(s) - Total(q), q.align);
    if RoundUp(p, q.align) + Total(q) <= BlkSiz(s) {
      ReturnWithinBlock(s.bits, off, q.size, q.align);
    }
  }

  lemma UsedMono(s: State, q: Request, i: nat, j: nat)
    requires Inv(s) && ValidRequest(s, q) && 0 < Total(q) < BlkSiz(s)
    requires Indexable(s, i) && Indexable(s, j) && Try(s, q, i) >= 0 && Try(s, q, j) >= 0
    requires Fill(s, j) <= Fill(s, i)
    ensures Used(s, q, j) <= Used(s, q, i)
  {
    IndexedBlockFits(s, q, i);
    IndexedBlockFits(s, q, j);
    RoundUpMono(Fill(s, j), Fill(s, i), q.align);
  }

  // --------------------------------------------------------- bucket search

  /** No bucket of the type above fill `u` offers a block. */
  ghost predicate NothingAbove(s: State, q: Request, u: nat)
    requires 0 < q.align && Total(q) < BlkSiz(s)
  {
    forall v :: u < v <= HighestFill(s, q) && (q.typ, v) in s.buckets ==>
      s.buckets[(q.typ, v)] == [] || HeadedByLast(s, (q.typ, v))
  }

  /** What the index says about the head of a bucket. */
  lemma HeadOfBucket(s: State, k: Key, i: nat)
    requires Inv(s) && k in s.buckets && s.buckets[k] != []
    requires i < |s.blocks| && s.blocks[i].ref == s.buckets[k][0]
    ensures i < s.cut && Mapped(s.blocks[i]) && KeyOf(s.bits, s.blocks[i]) == k
    ensures (i + 1 == |s.blocks| || !Mapped(s.blocks[i + 1])) <==> i + 1 == s.cut
    ensures HeadedByLast(s, k) <==> i + 1 == s.cut
  {
    hide Shape, Ordered, AllSorted, HeadsDistinct;
    IndexedHead(s, k, i);
    if HeadedByLast(s, k) { assert i == s.cut - 1; }
  }

  lemma IndexedHead(s: State, k: Key, i: nat)
    requires Indexed(s) && Distinct(s) && k in s.buckets && s.buckets[k] != []
    requires i < |s.blocks| && s.blocks[i].ref == s.buckets[k][0]
    ensures i < s.cut && KeyOf(s.bits, s.blocks[i]) == k
  {
    var r := s.buckets[k][0];
    assert Belongs(s, r, k);
    var j :| 0 <= j < s.cut && j < |s.blocks| && s.blocks[j].ref == r && KeyOf(s.bits, s.blocks[j]) == k;
    assert j == i;
  }

  /** The four panics of the bucket loop and its error branch are unreachable:
      the head of a bucket whose successor is not mapped is the last mapped
      block; any other has the type and the fill of its bucket, is mapped, takes
      the request, and ends within its block. */
  lemma BucketHead(s: State, q: Request, u: nat, i: nat)
    requires Inv(s) && ValidRequest(s, q) && 0 < Total(q) < BlkSiz(s)
    requires 0 < u <= HighestFill(s, q) && (q.typ, u) in s.buckets && s.buckets[(q.typ, u)] != []
    requires i < |s.blocks| && s.blocks[i].ref == s.buckets[(q.typ, u)][0]
    ensures Mapped(s.blocks[i]) && s.blocks[i].typ == q.typ && Fill(s, i) == u
    ensures (i + 1 == |s.blocks| || !Mapped(s.blocks[i + 1])) <==> i + 1 == s.cut
    ensures i + 1 != s.cut ==> Indexable(s, i) && Try(s, q, i) >= 0 && Used(s, q, i) <= BlkSiz(s)
    ensures i + 1 != s.cut ==> FirstInBucket(s, i) && Eligible(s, q, i)
  {
    hide Inv, Try, Used, HighestFill, ValidRequest, HeadedByLast;
    HeadOfBucket(s, (q.typ, u), i);
    if i + 1 != s.cut {
      IndexedBlockFits(s, q, i);
    }
  }

  /** The first head the search meets from the top beats every indexed block. */
  lemma HighestBucketWins(s: State, q: Request, i: nat, j: nat)
    requires Inv(s) && ValidRequest(s, q) && 0 < Total(q) < BlkSiz(s)
    requires i < |s.blocks| && Indexable(s, i) && Eligible(s, q, i) && NothingAbove(s, q, Fill(s, i))
    requires j < |s.blocks| && Indexable(s, j) && Eligible(s, q, j)
    ensures Beats(s, q, i, j)
  {
    IndexedBlockFits(s, q, j);
    ExactlyOneBucket(s, j, KeyOf(s.bits, s.blocks[j]));
    assert s.blocks[j].ref in s.buckets[(q.typ, Fill(s, j))];
    assert Fill(s, j) <= Fill(s, i);
    UsedMono(s, q, i, j);
  }

  lemma NoIndexedBlock(s: State, q: Request, j: nat)
    requires Inv(s) && ValidRequest(s, q) && 0 < Total(q) < BlkSiz(s)
    requires j < |s.blocks| && Indexable(s, j) && NothingAbove(s, q, 0)
    ensures !Eligible(s, q, j)
  {
    if Eligible(s, q, j) {
      IndexedBlockFits(s, q, j);
      assert false;
    }
  }

  // ---------------------------------------------------------- after the choice

  /** The returned value is the new offset within its block. */
  lemma ReturnedIsOffset(s: State, q: Request, i: nat)
    requires Inv(s) && ValidRequest(s, q) && i < |s.blocks| && Try(s, q, i) >= 0
    ensures RoundUp(s.blocks[i].off, q.align) + q.size + Total(q) + BlkSiz(s) < TWO_64
    ensures (RoundUp(s.blocks[i].off, q.align) + q.size) % BlkSiz(s) == Try(s, q, i) % BlkSiz(s)
  {
    BlockSizes(s.bits);
    InBlockRounding(s.bits, s.blocks[i].off, q.align);
    ExtentEndIsRoundUp(s.bits, s.blocks[i].off);
    ReturnedFill(s.bits, RoundUp(s.blocks[i].off, q.align) + q.size);
  }

  lemma EligibleEndsInBlock(s: State, q: Request, i: nat)
    requires Inv(s) && ValidRequest(s, q) && i < |s.blocks| && Eligible(s, q, i) && Total(q) > 0
    ensures (Try(s, q, i) + q.req) % BlkSiz(s) + q.inl <= BlkSiz(s)
  {
    if Indexable(s, i) {
      IndexedBlockFits(s, q, i);
      SmallMod(Try(s, q, i) + q.req, q.inl, BlkSiz(s));
    }
  }

  /** A chosen block takes the request at once: the real attach does not fail,
      it returns what the dry run returned, and the required extension and the
      inline part end within one block of the image. */
  lemma ChosenBlockTakesRequest(s: State, q: Request, i: nat, h: Incoming)
    requires Inv(s) && ValidRequest(s, q) && i < |s.blocks| && Eligible(s, q, i) && Total(q) > 0
    ensures Try(s, q, i) >= 0
    ensures var off' := Attached(s, i, h, q.size, q.align, q.req + q.inl).blocks[i].off;
      && off' % BlkSiz(s) == Try(s, q, i) % BlkSiz(s)
      && (off' + q.req) % BlkSiz(s) + q.inl <= BlkSiz(s)
  {
    hide Inv, ValidRequest, TryAttach, UpdateMapped, Oob, BlkRoundUp, RoundUp, TouchesTail;
    ReturnedIsOffset(s, q, i);
    EligibleEndsInBlock(s, q, i);
    SumMod(RoundUp(s.blocks[i].off, q.align) + q.size, Try(s, q, i), q.req, BlkSiz(s));
    UpdateMappedRest(Placed(s, i, h, q.size, q.align, q.req + q.inl), i);
  }

  lemma SumMod(x: nat, y: nat, z: nat, d: nat)
    requires d > 0 && x % d == y % d
    ensures (x + z) % d == (y + z) % d
  {
    DivMod(x, d);
    DivMod(y, d);
    ShiftDiv(x % d + z, x / d, d);
    ShiftDiv(y % d + z, y / d, d);
  }

  lemma SmallMod(x: nat, z: nat, d: nat)
    requires d > 0 && x + z <= d
    ensures x % d + z <= d
  {
    if x < d {
      ModUnique(x, 0, x, d);
    } else {
      ModUnique(x, 1, 0, d);
    }
  }

  /** A new block takes any request, wherever it was inserted. */
  lemma NewBlockTakesRequest(s: State, ref: BufferBlock, q: Request)
    requires Inv(s) && FreshBlock(s, ref) && ValidRequest(s, q)
    ensures var t, p := NewBlock(s, ref, q.typ), if q.typ == DATA then s.cut else |s.blocks|;
      && p < |t.blocks| && t.blocks[p].ref == ref && Try(t, q, p) >= 0
      && (Try(t, q, p) + q.req) % BlkSiz(s) + q.inl == FreshFill(s, q)
  {
    hide LastFill, RoundUp, Pow2, Oob;
    NewBlockBlocks(s, ref, q.typ);
    NewBlockList(s, ref, q.typ);
    RoundUpZero(q.align);
    ReturnedFill(s.bits, q.size);
    SumMod(LastFill(s.bits, q.size), q.size, q.req, BlkSiz(s));
  }

  // ------------------------------------------------------------------ room

  lemma BlkRoundUpShift(bits: nat, q: nat, x: nat)
    ensures BlkRoundUp(bits, q * Pow2(bits) + x) == q + BlkRoundUp(bits, x)
  {
    var b := Pow2(bits);
    RoundUpShift(x, q, b);
    ShiftDiv(RoundUp(x, b), q, b);
  }

  /** A request of `incr` bytes adds at most the blocks that `incr` bytes need. */
  lemma GrowthBound(bits: nat, off: nat, incr: nat, align: nat)
    requires ValidBits(bits) && off < TWO_64 && Divides(align, Pow2(bits))
    ensures BlkRoundUp(bits, RoundUp(off, align) + incr) <= BlkRoundUp(bits, off) + BlkRoundUp(bits, incr)
  {
    InBlockRounding(bits, off, align);
    BlkRoundUpMono(bits, RoundUp(off, align) + incr, ExtentEnd(bits, off) + incr);
    BlkRoundUpShift(bits, BlkRoundUp(bits, off), incr);
  }

  lemma PendingUpdate(bits: nat, bs: seq<BlockV>, i: nat, b: BlockV)
    requires i < |bs|
    ensures Pending(bits, bs[i := b]) == Pending(bits, bs) - Size(bits, bs[i]) + Size(bits, b)
  {
    assert bs == bs[..i] + ([bs[i]] + bs[i + 1..]);
    assert bs[i := b] == bs[..i] + ([b] + bs[i + 1..]);
    PendingSplit(bits, bs[..i], [bs[i]] + bs[i + 1..]);
    PendingSplit(bits, bs[..i], [b] + bs[i + 1..]);
    PendingSplit(bits, [bs[i]], bs[i + 1..]);
    PendingSplit(bits, [b], bs[i + 1..]);
    PendingOne(bits, bs[i]);
    PendingOne(bits, b);
  }

  lemma PlacedRoomUnmapped(s: State, i: nat, h: Incoming, incr: nat, align: nat, extra: nat)
    requires Inv(s) && CanRequest(s, i, h, incr, align, extra) && s.cut <= i
    requires Size(s.bits, Grown(s.blocks[i], h, incr, align)) <= Size(s.bits, s.blocks[i]) + BlkRoundUp(s.bits, incr)
    requires Room(s, BlkRoundUp(s.bits, incr))
    ensures Fits(Placed(s, i, h, incr, align, extra))
  {
    hide RoundUp, BlkRoundUp, Oob, LastFill, Pending, Inv;
    var t := Placed(s, i, h, incr, align, extra);
    PrefixOf(s);
    assert t.blocks[t.cut..] == s.blocks[s.cut..][i - s.cut := t.blocks[i]];
    PendingUpdate(s.bits, s.blocks[s.cut..], i - s.cut, t.blocks[i]);
  }

  lemma PlacedRoomMapped(s: State, i: nat, h: Incoming, incr: nat, align: nat, extra: nat)
    requires Inv(s) && CanRequest(s, i, h, incr, align, extra) && i < s.cut
    requires Placed(s, i, h, incr, align, extra).tail <= s.tail + BlkRoundUp(s.bits, incr)
    requires Room(s, BlkRoundUp(s.bits, incr))
    ensures Fits(Placed(s, i, h, incr, align, extra))
  {
    hide RoundUp, BlkRoundUp, Oob, LastFill, Pending, Inv;
    var t := Placed(s, i, h, incr, align, extra);
    assert t.blocks[t.cut..] == s.blocks[s.cut..];
  }

  lemma PlacedRoom(s: State, i: nat, h: Incoming, incr: nat, align: nat, extra: nat)
    requires Inv(s) && CanRequest(s, i, h, incr, align, extra)
    requires TryAttach(s, i, incr, align, extra) >= 0 && s.blocks[i].off < TWO_64
    requires Room(s, BlkRoundUp(s.bits, incr))
    ensures Fits(Placed(s, i, h, incr, align, extra))
  {
    hide RoundUp, BlkRoundUp, Oob, LastFill, Inv, Fits, Room, Pow2, TryAttach;
    InvCut(s);
    GrowthBound(s.bits, s.blocks[i].off, incr, align);
    AttachCases(s, i, h, incr, align, extra);
    if i >= s.cut {
      PlacedRoomUnmapped(s, i, h, incr, align, extra);
    } else {
      PlacedRoomMapped(s, i, h, incr, align, extra);
    }
  }

  /** With enough room the state after an attach fits. */
  lemma AttachFits(s: State, i: nat, h: Incoming, incr: nat, align: nat, extra: nat)
    requires Inv(s) && CanRequest(s, i, h, incr, align, extra)
    requires TryAttach(s, i, incr, align, extra) >= 0 && s.blocks[i].off < TWO_64
    requires Room(s, BlkRoundUp(s.bits, incr))
    ensures Fits(Attached(s, i, h, incr, align, extra))
  {
    hide Inv, Fits;
    PlacedRoom(s, i, h, incr, align, extra);
    var t := Placed(s, i, h, incr, align, extra);
    UpdateMappedRest(t, i);
    FitsIgnoresBuckets(t, UpdateMapped(t, i));
  }

  lemma FitsIgnoresBuckets(s: State, t: State)
    requires Fits(s) && t.(buckets := s.buckets) == s
    ensures Fits(t)
  {
    assert t.blocks == s.blocks && t.cut == s.cut && t.bits == s.bits && t.tail == s.tail;
  }

  // ------------------------------------------------------------- the search

  /** What the walk has found when it gets to position `c`. */
  ghost predicate BestSoFar(s: State, q: Request, c: nat, found: bool, i: nat) {
    && (!found ==> forall j :: 0 <= j < |s.blocks| && (Indexable(s, j) || j < c) ==> !Eligible(s, q, j))
    && (found ==>
          && i < |s.blocks| && Eligible(s, q, i) && (Indexable(s, i) ==> FirstInBucket(s, i))
          && (Indexable(s, i) || i < c)
          && forall j :: 0 <= j < |s.blocks| && Eligible(s, q, j) && (Indexable(s, j) || j < c) ==> Beats(s, q, i, j))
  }

  lemma SearchDone(s: State, q: Request, found: bool, i: nat)
    requires BestSoFar(s, q, |s.blocks|, found, i)
    ensures found ==> BestFit(s, q, i)
    ensures !found ==> forall j :: 0 <= j < |s.blocks| ==> !Eligible(s, q, j)
  {
  }

  /** One step of the walk. `usedmax` is zero until something was found, and an
      eligible block always has a positive fill. */
  lemma WalkStep(s: State, q: Request, c: nat, found: bool, i: nat, usedmax: int)
    requires Inv(s) && c < |s.blocks| && !Indexable(s, c) && BestSoFar(s, q, c, found, i)
    requires usedmax == if found then Used(s, q, i) else 0
    requires 0 < FreshFill(s, q)
    ensures !Eligible(s, q, c) || (found && Used(s, q, c) <= usedmax) ==> BestSoFar(s, q, c + 1, found, i)
    ensures Eligible(s, q, c) && usedmax < Used(s, q, c) ==> BestSoFar(s, q, c + 1, true, c)
    ensures Eligible(s, q, c) ==> Used(s, q, c) > 0
  {
    hide Inv, TryAttach;
    DivMod(Try(s, q, c) + q.req, BlkSiz(s));
  }

  lemma BucketPhaseDone(s: State, q: Request, found: bool, i: nat, c: nat)
    requires Inv(s) && ValidRequest(s, q) && 0 < Total(q)
    requires c == if s.cut == 0 then 0 else s.cut - 1
    requires found ==>
      && Total(q) < BlkSiz(s) && i < |s.blocks| && Indexable(s, i) && Eligible(s, q, i)
      && FirstInBucket(s, i) && NothingAbove(s, q, Fill(s, i))
    requires !found && Total(q) < BlkSiz(s) ==> NothingAbove(s, q, 0)
    ensures BestSoFar(s, q, c, found, i)
  {
    hide TryAttach;
    forall j | 0 <= j < |s.blocks| && (Indexable(s, j) || j < c)
      ensures !found ==> !Eligible(s, q, j)
      ensures found && Eligible(s, q, j) ==> Beats(s, q, i, j)
    {
      if found {
        if Eligible(s, q, j) { HighestBucketWins(s, q, i, j); }
      } else if Total(q) < BlkSiz(s) {
        NoIndexedBlock(s, q, j);
      }
    }
  }

  // ------------------------------------- the choice in the quantities of the code

  /** What is passed over: a walked block with a partly filled last block that takes
      the request and keeps the inline part whole is refused only for being filled
      less than it is and less than a new block would be, and an indexed one only
      for a request of a block or more, or behind the last mapped block in a bucket. */
  lemma RefusedBlock(s: State, q: Request, j: nat)
    requires j < |s.blocks| && !Eligible(s, q, j)
    requires s.blocks[j].typ == q.typ && s.blocks[j].off % Pow2(s.bits) != 0
    requires TryAttach(s, j, q.size, q.align, q.req + q.inl) >= 0
    ensures s.cut <= j + 1 ==>
      var used := (TryAttach(s, j, q.size, q.align, q.req + q.inl) + q.req) % Pow2(s.bits) + q.inl;
      used <= Pow2(s.bits) ==>
        used < s.blocks[j].off % Pow2(s.bits) && used < (q.size + q.req) % Pow2(s.bits) + q.inl
    ensures j + 1 < s.cut && q.size + q.req + q.inl < Pow2(s.bits) ==>
      var k := (q.typ, s.blocks[j].off % Pow2(s.bits));
      s.cut <= |s.blocks| && k in s.buckets && s.buckets[k] != [] && s.buckets[k][0] == s.blocks[s.cut - 1].ref
  {
    hide TryAttach;
  }

  /** So when nothing is eligible, that is why. */
  lemma NoneTakes(s: State, q: Request)
    requires forall i :: 0 <= i < |s.blocks| ==> !Eligible(s, q, i)
    ensures forall j :: 0 <= j < |s.blocks| && s.cut <= j + 1 ==>
      var b, off := Pow2(s.bits), s.blocks[j].off;
      var ret := TryAttach(s, j, q.size, q.align, q.req + q.inl);
      s.blocks[j].typ == q.typ && off % b != 0 && ret >= 0 && (ret + q.req) % b + q.inl <= b ==>
        (ret + q.req) % b + q.inl < off % b && (ret + q.req) % b + q.inl < (q.size + q.req) % b + q.inl
  {
    hide TryAttach, Eligible;
    forall j | 0 <= j < |s.blocks| && s.cut <= j + 1 && s.blocks[j].typ == q.typ && s.blocks[j].off % Pow2(s.bits) != 0
      && TryAttach(s, j, q.size, q.align, q.req + q.inl) >= 0
      ensures var b, off := Pow2(s.bits), s.blocks[j].off;
        var ret := TryAttach(s, j, q.size, q.align, q.req + q.inl);
        (ret + q.req) % b + q.inl <= b ==>
          (ret + q.req) % b + q.inl < off % b && (ret + q.req) % b + q.inl < (q.size + q.req) % b + q.inl
    {
      RefusedBlock(s, q, j);
    }
  }

  /** What is chosen: a block of the type with a partly filled last block that takes
      the request, never one that would be filled less than it is and less than a new
      block; of the indexed ones the head of its bucket. */
  lemma ChosenBlock(s: State, q: Request, i: nat)
    requires Inv(s) && ValidRequest(s, q) && 0 < Total(q) && BestFit(s, q, i)
    ensures i < |s.blocks| && s.blocks[i].typ == q.typ && s.blocks[i].off % Pow2(s.bits) != 0
    ensures var ret := TryAttach(s, i, q.size, q.align, q.req + q.inl);
      && ret >= 0
      && (s.cut <= i + 1 ==>
            var used := (ret + q.req) % Pow2(s.bits) + q.inl;
            && used <= Pow2(s.bits)
            && !(used < s.blocks[i].off % Pow2(s.bits) && used < (q.size + q.req) % Pow2(s.bits) + q.inl))
      && (i + 1 < s.cut ==>
            var k := (q.typ, s.blocks[i].off % Pow2(s.bits));
            && ret + q.req + q.inl <= Pow2(s.bits)
            && k in s.buckets && s.buckets[k] != [] && s.buckets[k][0] == s.blocks[i].ref)
  {
    hide TryAttach, Inv;
    if Indexable(s, i) { IndexedBlockFits(s, q, i); }
  }

  /** And what it wins against. A walked block that takes the request and is not
      refused for its fill is filled no more, and less if it precedes the choice. */
  lemma ChosenBeatsWalked(s: State, q: Request, i: nat, j: nat)
    requires BestFit(s, q, i) && j < |s.blocks| && j != i && s.cut <= j + 1
    requires s.blocks[j].typ == q.typ && s.blocks[j].off % Pow2(s.bits) != 0
    requires TryAttach(s, j, q.size, q.align, q.req + q.inl) >= 0
    ensures var b := Pow2(s.bits);
      var ri, rj := TryAttach(s, i, q.size, q.align, q.req + q.inl), TryAttach(s, j, q.size, q.align, q.req + q.inl);
      var ui := if i + 1 < s.cut then ri + q.req + q.inl else (ri + q.req) % b + q.inl;
      var uj := (rj + q.req) % b + q.inl;
      uj <= b && !(uj < s.blocks[j].off % b && uj < (q.size + q.req) % b + q.inl) ==>
        if s.cut <= i + 1 && j < i then uj < ui else uj <= ui
  {
    hide TryAttach, FirstInBucket;
    assert Eligible(s, q, j) ==> Beats(s, q, i, j);
  }

  /** An indexed one that could have been taken is filled less than a walked choice,
      and at most as much as an indexed choice, now and with the request. */
  lemma ChosenBeatsIndexed(s: State, q: Request, i: nat, j: nat)
    requires BestFit(s, q, i) && j < |s.blocks| && j + 1 < s.cut <= |s.blocks|
    requires s.blocks[j].typ == q.typ && q.size + q.req + q.inl < Pow2(s.bits)
    requires TryAttach(s, j, q.size, q.align, q.req + q.inl) >= 0
    requires var k := (q.typ, s.blocks[j].off % Pow2(s.bits));
      k in s.buckets && s.buckets[k] != [] && s.buckets[k][0] != s.blocks[s.cut - 1].ref
    ensures var b := Pow2(s.bits);
      var ri, rj := TryAttach(s, i, q.size, q.align, q.req + q.inl), TryAttach(s, j, q.size, q.align, q.req + q.inl);
      if s.cut <= i + 1 then rj + q.req + q.inl < (ri + q.req) % b + q.inl
      else rj <= ri && (rj == ri ==> s.blocks[j].off % b <= s.blocks[i].off % b)
  {
    hide TryAttach, FirstInBucket, HeadedByLast;
    IndexedIsEligible(s, q, j);
    hide Eligible;
    assert Beats(s, q, i, j);
  }

  lemma IndexedIsEligible(s: State, q: Request, j: nat)
    requires j + 1 < s.cut <= |s.blocks| && s.blocks[j].typ == q.typ && Total(q) < Pow2(s.bits)
    requires TryAttach(s, j, q.size, q.align, q.req + q.inl) >= 0
    requires var k := (q.typ, s.blocks[j].off % Pow2(s.bits));
      k in s.buckets && s.buckets[k] != [] && s.buckets[k][0] != s.blocks[s.cut - 1].ref
    ensures Eligible(s, q, j)
  {
    hide TryAttach;
  }

  /** A request is taken exactly when it ends within the blocks of the image that the
      buffer block has, or else nothing mapped follows it and it is not mapped or
      touches the tail. */
  lemma AttachSucceedsIff(s: State, i: nat, incr: nat, align: nat, extra: nat)
    requires Inv(s) && CanRequest(s, i, NoHead, incr, align, extra)
    ensures i < |s.blocks|
    ensures TryAttach(s, i, incr, align, extra) >= 0 <==>
      || RoundUp(s.blocks[i].off, align) + incr + extra <= BlkRoundUp(s.bits, s.blocks[i].off) * Pow2(s.bits)
      || s.cut <= i
      || (i + 1 == s.cut && s.tail == s.blocks[i].addr + BlkRoundUp(s.bits, s.blocks[i].off))
    ensures TryAttach(s, i, incr, align, extra) >= 0 ==>
      && 0 < TryAttach(s, i, incr, align, extra) <= Pow2(s.bits)
      && (RoundUp(s.blocks[i].off, align) + incr - TryAttach(s, i, incr, align, extra)) % Pow2(s.bits) == 0
    ensures TryAttach(s, i, incr, align, extra) < 0 ==> TryAttach(s, i, incr, align, extra) == -22
  {
    hide Inv, RoundUp, BlkRoundUp, LastFill, Pow2, Oob;
    PrefixOf(s);
    InvCut(s);
    RequestSmall(s, i, incr, align, extra);
    var off := s.blocks[i].off;
    BoundaryTestExact(s.bits, off, incr, align, extra);
    var end := RoundUp(off, align) + incr;
    ReturnedFill(s.bits, end);
    SameRest(end, LastFill(s.bits, end), Pow2(s.bits));
  }

  lemma RequestSmall(s: State, i: nat, incr: nat, align: nat, extra: nat)
    requires CanRequest(s, i, NoHead, incr, align, extra)
    ensures i < |s.blocks| && s.blocks[i].off <= RoundUp(s.blocks[i].off, align)
    ensures RoundUp(s.blocks[i].off, align) + incr < TWO_64 && Divides(align, Pow2(s.bits))
  {
    RoundUpLeast(s.blocks[i].off, align);
  }

  lemma SameRest(x: nat, y: nat, d: nat)
    requires d > 0 && x % d == y % d
    ensures (x - y) % d == 0
  {
    DivMod(x, d);
    DivMod(y, d);
    ModUnique(x - y, x / d - y / d, 0, d);
  }
}
