/** The packed inode and the compression context as objects: the loops of
    pkg/types/dedupe.go and inode1.go, proved against the store of `Fragments`.
    Files are byte sequences; a read in the extension loop may fail, which the
    parameter `io` decides, and all other reads and writes are complete. */
module FragmentStore {
  import opened Rounding
  import opened Objects
  import opened Crc32c
  import opened Fragments

  class Inode {
    const Content: seq<byte>
    var FragmentSize: nat
    var Fragmentoff: nat

    constructor (content: seq<byte>)
      ensures Content == content && FragmentSize == 0
    {
      Content := content;
      FragmentSize := 0;
      Fragmentoff := 0;
    }
  }

  class PackedInode {
    var File: seq<byte>
    var Slots: Table
    var TofChksum: word

    function Model(): Store
      reads this
    {
      Store(File, Slots, TofChksum)
    }

    /** `InitPackedFile`, with every slot an empty list. */
    constructor ()
      ensures Model() == Store([], map[], 0) && StoreOk(Model())
    {
      File := [];
      Slots := map[];
      TofChksum := 0;
    }

    /** The comparison in memory, byte by byte from the end. */
    method MatchInMemory(cur: Item, content: seq<byte>, data: seq<byte>) returns (i: nat)
      requires |content| > HASHLEN && data == Tail(content, InMemory(content))
      ensures i == MemMatch(cur, content)
    {
      hide CommonSuffix, Lcs, MemMatch;
      var s1 := |data|;
      TooShort(cur, content);
      if |cur.data| <= HASHLEN {
        return 0;
      }
      var e1, e2 := s1 - HASHLEN, |cur.data| - HASHLEN;
      SameLastBytes(cur, content, data);
      if data[e1..e1 + HASHLEN] != cur.data[e2..e2 + HASHLEN] {
        return 0;
      }
      i := ExtendInMemory(cur.data, data);
      MemMatchIs(cur, content);
    }

    /** The byte loop, once the last 16 bytes are known to be the same. */
    static method ExtendInMemory(a: seq<byte>, b: seq<byte>) returns (i: nat)
      requires CommonSuffix(a, b, HASHLEN)
      ensures i == Lcs(a, b)
    {
      hide CommonSuffix, Lcs;
      SuffixFits(a, b, HASHLEN);
      var e1, e2 := |b| - HASHLEN, |a| - HASHLEN;
      i := 0;
      var mn := Min(e1, e2);
      while i < mn && a[e2 - i - 1] == b[e1 - i - 1]
        invariant i <= mn && CommonSuffix(a, b, i + HASHLEN)
      {
        SuffixGrows(a, b, i + HASHLEN);
        i := i + 1;
      }
      i := i + HASHLEN;
      LcsByMismatch(a, b, i);
    }

    /** The chunk loop: goes on in front of a match of `i0` bytes that begins at
        `pos0` in the packed file. */
    method ExtendOnDisk(content: seq<byte>, i0: nat, pos0: nat, io: nat -> bool) returns (i: nat)
      requires i0 <= |content| && pos0 <= |File|
      ensures i == Extend(File, content, i0, pos0, io)
    {
      hide Extend;
      i := i0;
      var pos := pos0;
      while i < |content| && pos > 0
        invariant i <= |content| && 0 <= pos <= |File|
        invariant Extend(File, content, i, pos, io) == Extend(File, content, i0, pos0, io)
        decreases |content| - i
      {
        ExtendStep(File, content, i, pos, io);
        var sz := Min(Min(pos, CHUNK), |content| - i);
        if !io(i) {
          return;
        }
        if File[pos - sz..pos] != content[|content| - i - sz..|content| - i] {
          return;
        }
        pos := pos - sz;
        i := i + sz;
      }
      ExtendStep(File, content, i, pos, io);
    }

    /** The length of the match with one candidate: in memory, and if that covers
        what is in memory, chunk by chunk in front of it. */
    method MatchCandidate(cur: Item, content: seq<byte>, data: seq<byte>, io: nat -> bool) returns (i: nat)
      requires |content| > HASHLEN && data == Tail(content, InMemory(content)) && ItemOk(File, cur)
      ensures i == MatchLen(File, cur, content, io)
    {
      hide MemMatch, Extend, ItemOk;
      ItemInFile(File, cur);
      i := MatchInMemory(cur, content, data);
      MemMatchBound(cur, content);
      if i >= |data| {
        var pos := EndOf(cur) - |data|;
        i := ExtendOnDisk(content, i, pos, io);
      }
    }

    /** The walk over the candidates of one slot. */
    method BestOf(head: seq<Item>, content: seq<byte>, io: nat -> bool) returns (best: Found)
      requires |content| > HASHLEN && ItemsOk(File, head)
      ensures best == Scan(File, head, content, io, Found(0, 0))
    {
      hide Scan, MatchLen;
      var data := Tail(content, InMemory(content));
      best := Found(0, 0);
      var n := 0;
      assert head[0..] == head;
      while n < |head|
        invariant n <= |head| && best.len <= |content|
        invariant best.len > 0 ==> best.end >= best.len
        invariant Scan(File, head[n..], content, io, best) == Scan(File, head, content, io, Found(0, 0))
      {
        var cur := head[n];
        ScanStep(File, head, n, content, io, best);
        var i := MatchCandidate(cur, content, data, io);
        n := n + 1;
        if i > best.len {
          best := Found(i, EndOf(cur));
          if best.len == |content| {
            return;
          }
        }
      }
      ScanEnds(File, head, n, content, io, best);
    }

    /** `ZErofsFragmentsDedupeFind`. */
    method FragmentsDedupeFind(inode: Inode, crc: word, io: nat -> bool)
      requires StoreOk(Model()) && |inode.Content| > HASHLEN && crc == TofCrc(inode.Content)
      modifies inode
      ensures var r := Find(Model(), inode.Content, io);
        if r.size > 0 then inode.FragmentSize == r.size && inode.Fragmentoff == r.off
        else inode.FragmentSize == old(inode.FragmentSize) && inode.Fragmentoff == old(inode.Fragmentoff)
    {
      hide Scan, MatchLen, Crc;
      var content := inode.Content;
      var head := Slot(Slots, Fragments.Hash(crc));
      if head == [] {
        EmptyScan(File, content, io);
        return;
      }
      ScanIsBest(File, head, content, io, Found(0, 0));
      var best := BestOf(head, content, io);
      if best.len > 0 {
        inode.FragmentSize := best.len;
        inode.Fragmentoff := best.end - best.len;
      }
    }

    /** `ZErofsFragmentsDedupe`. */
    method FragmentsDedupe(inode: Inode, io: nat -> bool)
      requires StoreOk(Model())
      modifies this`TofChksum, inode
      ensures Model() == old(Model()).(tof := NewTof(old(Model()), inode.Content))
      ensures var r := Find(old(Model()), inode.Content, io);
        if r.size > 0 then inode.FragmentSize == r.size && inode.Fragmentoff == r.off
        else inode.FragmentSize == old(inode.FragmentSize) && inode.Fragmentoff == old(inode.Fragmentoff)
      ensures |inode.Content| > 16 ==> TofChksum == Crc(0, Inverted(inode.Content[|inode.Content| - 16..]))
    {
      hide Find, Crc, Inverted;
      ghost var s := Model();
      if |inode.Content| <= HASHLEN {
        ShortFind(s, inode.Content, io);
        return;
      }
      var dataToHash := Tail(inode.Content, HASHLEN);
      assert dataToHash[..HASHLEN] == dataToHash;
      TofChksum := ErofsGetCrc32c(SEED, dataToHash, HASHLEN);
      TofIrrelevant(s, TofChksum, inode.Content, io);
      TofCrcIs(inode.Content);
      FragmentsDedupeFind(inode, TofChksum, io);
    }

    /** `ZErofsFragmentsDedupeInsert`. */
    method FragmentsDedupeInsert(k: nat, data: seq<byte>, pos: nat)
      modifies this`Slots
      ensures Slots == Insert(old(Slots), k, data, pos)
    {
      if |data| <= HASHLEN {
        return;
      }
      var tail, at := data, pos;
      if |data| > INMEM_MAX {
        tail := data[|data| - INMEM_MAX..];
        at := pos + |data| - INMEM_MAX;
      }
      assert tail == Tail(data, Min(|data|, INMEM_MAX));
      Slots := Slots[k := Slot(Slots, k) + [Item(at, tail)]];
    }

    /** `ZErofsPackFileFromFd`: at once when the file can be mapped into memory,
        and otherwise in pieces of at most 32 KiB, which leaves nothing behind in
        the table. */
    method PackFileFromFd(inode: Inode, mapped: bool)
      requires StoreOk(Model())
      modifies this`File, this`Slots, inode
      ensures Model() == Pack(old(Model()), inode.Content, mapped)
      ensures inode.Fragmentoff == |old(File)| && inode.FragmentSize == |inode.Content|
    {
      var content := inode.Content;
      inode.Fragmentoff := |File|;
      inode.FragmentSize := |content|;
      ghost var before := File;
      if !mapped {
        var remaining: nat := |content|;
        while remaining > 0
          invariant remaining <= |content| && File == before + content[..|content| - remaining]
          invariant TofChksum == old(TofChksum) && Slots == old(Slots)
          invariant inode.Fragmentoff == |before| && inode.FragmentSize == |content|
        {
          var bufSize := Min(32768, remaining);
          var done := |content| - remaining;
          var buf := content[done..done + bufSize];
          assert content[..done] + buf == content[..done + bufSize];
          File := File + buf;
          remaining := remaining - bufSize;
        }
        assert content[..|content|] == content;
      } else {
        File := File + content;
        FragmentsDedupeInsert(Fragments.Hash(TofChksum), content, inode.Fragmentoff);
      }
    }

    /** The first half of the step: finds the tail of the file in the store, or
        all of it. */
    method DedupeStep(inode: Inode, f: Fragments.File)
      requires StoreOk(Model()) && f.content == inode.Content && inode.FragmentSize == 0
      modifies this`TofChksum, inode
      ensures Model() == AfterDedupe(old(Model()), f)
      ensures var r := Deduped(old(Model()), f);
        inode.FragmentSize == r.size && (r.size > 0 ==> inode.Fragmentoff == r.off)
    {
      hide Find, NewTof, StoreOk;
      if f.fragments && !f.packedInode && f.mode != Off {
        FragmentsDedupe(inode, f.io);
        if f.mode == WholeInode && inode.FragmentSize < |inode.Content| {
          // In this mode only a match of the whole file counts.
          inode.FragmentSize := 0;
        }
      }
    }

    /** The dedupe-or-pack step of `ErofsBeginCompressedFile`, on an inode that has no
        fragment yet. */
    method BeginCompressedFile(inode: Inode, f: Fragments.File)
      requires StoreOk(Model()) && f.content == inode.Content && inode.FragmentSize == 0
      modifies this, inode
      ensures var (t, r) := Begin(old(Model()), f);
        && StoreOk(Model()) && Model() == t
        && inode.FragmentSize == r.size && (r.size > 0 ==> inode.Fragmentoff == r.off)
      // In whole-inode mode all of the file or nothing, and in full mode any match.
      ensures var dedupes, found := f.fragments && !f.packedInode && f.mode != Off, Find(old(Model()), f.content, f.io);
        && (dedupes && f.mode == WholeInode ==>
              && (inode.FragmentSize == 0 || inode.FragmentSize == |f.content|)
              && (found.size < |f.content| ==> File == old(File) + if f.allFragments then f.content else []))
        && (dedupes && f.mode == Full && found.size > 0 ==>
              inode.FragmentSize == found.size && inode.Fragmentoff == found.off && File == old(File))
    {
      hide Pack, Deduped, StoreOk, AfterDedupe, Begin, Find;
      ghost var s := Model();
      DedupeStep(inode, f);
      AfterDedupeOk(s, f);
      ghost var n := inode.FragmentSize;
      if f.allFragments && !f.packedInode && inode.FragmentSize == 0 {
        PackFileFromFd(inode, f.mapped);
      }
      BeginIs(s, f, n);
      BeginOk(s, f);
      if f.fragments && !f.packedInode && f.mode != Off { BeginDeduped(s, f); }
    }
  }

  /** The store between the two halves of the step. */
  ghost function AfterDedupe(s: Store, f: Fragments.File): Store {
    if Dedupes(f) then s.(tof := NewTof(s, f.content)) else s
  }

  lemma AfterDedupeOk(s: Store, f: Fragments.File)
    requires StoreOk(s)
    ensures StoreOk(AfterDedupe(s, f)) && AfterDedupe(s, f).packed == s.packed
  {
  }

  lemma BeginIs(s: Store, f: Fragments.File, n: nat)
    requires StoreOk(s) && n == Deduped(s, f).size
    ensures var t := AfterDedupe(s, f);
      if f.allFragments && !f.packedInode && n == 0
      then Begin(s, f) == (Pack(t, f.content, f.mapped), Ref(|s.packed|, |f.content|))
      else Begin(s, f) == (t, Deduped(s, f))
  {
  }

  /** One round of the chunk loop. */
  lemma ExtendStep(packed: seq<byte>, content: seq<byte>, i: nat, pos: nat, io: nat -> bool)
    requires i <= |content| && pos <= |packed|
    ensures Extend(packed, content, i, pos, io) ==
      if i == |content| || pos == 0 then i
      else
        var sz := Min(Min(pos, CHUNK), |content| - i);
        if io(i) && packed[pos - sz..pos] == content[|content| - i - sz..|content| - i]
        then Extend(packed, content, i + sz, pos - sz, io)
        else i
  {
  }

  lemma ItemInFile(packed: seq<byte>, item: Item)
    requires ItemOk(packed, item)
    ensures EndOf(item) <= |packed|
  {
  }

  lemma TooShort(cur: Item, content: seq<byte>)
    ensures |cur.data| <= HASHLEN ==> MemMatch(cur, content) == 0
  {
  }

  lemma MemMatchIs(cur: Item, content: seq<byte>)
    requires |cur.data| > HASHLEN
    ensures MemMatch(cur, content) ==
      if CommonSuffix(cur.data, content, HASHLEN) then Lcs(cur.data, Tail(content, InMemory(content))) else 0
  {
  }

  /** Comparing the last 16 bytes of the loaded part compares those of the file. */
  lemma SameLastBytes(cur: Item, content: seq<byte>, data: seq<byte>)
    requires |content| > HASHLEN && data == Tail(content, InMemory(content)) && |cur.data| > HASHLEN
    ensures var e1, e2 := |data| - HASHLEN, |cur.data| - HASHLEN;
      var same := data[e1..e1 + HASHLEN] == cur.data[e2..e2 + HASHLEN];
      && (CommonSuffix(cur.data, content, HASHLEN) <==> same)
      && (CommonSuffix(cur.data, data, HASHLEN) <==> same)
    ensures !CommonSuffix(cur.data, content, HASHLEN) ==> MemMatch(cur, content) == 0
  {
    TailOfTail(content, |data|, HASHLEN);
    assert Tail(data, HASHLEN) == data[|data| - HASHLEN..|data| - HASHLEN + HASHLEN];
    assert Tail(cur.data, HASHLEN) == cur.data[|cur.data| - HASHLEN..|cur.data| - HASHLEN + HASHLEN];
  }

  lemma EmptyScan(packed: seq<byte>, content: seq<byte>, io: nat -> bool)
    ensures Scan(packed, [], content, io, Found(0, 0)) == Found(0, 0)
  {
  }

  /** One candidate of the scan. */
  lemma ScanStep(packed: seq<byte>, items: seq<Item>, n: nat, content: seq<byte>, io: nat -> bool, best: Found)
    requires ItemsOk(packed, items) && n < |items|
    ensures var i := MatchLen(packed, items[n], content, io);
      Scan(packed, items[n..], content, io, best) ==
        if i <= best.len then Scan(packed, items[n + 1..], content, io, best)
        else if i == |content| then Found(i, EndOf(items[n]))
        else Scan(packed, items[n + 1..], content, io, Found(i, EndOf(items[n])))
  {
    assert items[n..][0] == items[n] && items[n..][1..] == items[n + 1..];
  }

  lemma ScanEnds(packed: seq<byte>, items: seq<Item>, n: nat, content: seq<byte>, io: nat -> bool, best: Found)
    requires ItemsOk(packed, items) && n <= |items|
    ensures n == |items| ==> Scan(packed, items[n..], content, io, best) == best
  {
  }

  lemma ShortFind(s: Store, content: seq<byte>, io: nat -> bool)
    requires StoreOk(s) && |content| <= HASHLEN
    ensures Find(s, content, io).size == 0
  {
  }

  /** The search does not depend on the kept checksum. */
  lemma TofIrrelevant(s: Store, tof: word, content: seq<byte>, io: nat -> bool)
    requires StoreOk(s)
    ensures StoreOk(s.(tof := tof)) && Find(s.(tof := tof), content, io) == Find(s, content, io)
  {
  }
}
