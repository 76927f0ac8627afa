/** The fragment dedupe store of pkg/types/dedupe.go and inode1.go as a value:
    an append-only packed file and a table of remembered file tails. */
module Fragments {
  import opened Rounding
  import opened Objects
  import opened Crc32c

  const HASHLEN: nat := 16
  const INMEM_MAX: nat := 256 * 1024
  const HASHSIZE: nat := 65536
  const CHUNK: nat := 16384

  /** A remembered tail: `data` lies at `pos` in the packed file. */
  datatype Item = Item(pos: nat, data: seq<byte>)

  /** The slots of the hash table; a slot that was never used is an empty list. */
  type Table = map<nat, seq<Item>>

  function Slot(t: Table, k: nat): seq<Item> { if k in t then t[k] else [] }

  /** `FRAGMENT_HASH`. */
  function Hash(crc: word): nat { crc % HASHSIZE }

  lemma HashIsMask(crc: word)
    ensures Hash(crc) == BitAnd(crc, HASHSIZE - 1)
  {
    Pow16();
    MaskIsMod(crc, 16);
  }

  lemma Pow16()
    ensures Pow2(16) == 65536
  {
    assert Pow2(8) == 256 by { assert Pow2(4) == 16; }
    assert Pow2(12) == 4096;
  }

  function Min(x: nat, y: nat): nat { if x < y then x else y }

  /** The last `n` elements. */
  function Tail(s: seq<byte>, n: nat): (r: seq<byte>)
    requires n <= |s|
    ensures |r| == n
  {
    s[|s| - n..]
  }

  /** The last `n` bytes of both are the same. */
  predicate CommonSuffix(a: seq<byte>, b: seq<byte>, n: nat) {
    n <= |a| && n <= |b| && Tail(a, n) == Tail(b, n)
  }

  /** Length of the longest common suffix. */
  function Lcs(a: seq<byte>, b: seq<byte>): nat
    decreases |a|
  {
    if a == [] || b == [] || a[|a| - 1] != b[|b| - 1] then 0
    else 1 + Lcs(a[..|a| - 1], b[..|b| - 1])
  }

  lemma SuffixStep(a: seq<byte>, b: seq<byte>, n: nat)
    requires a != [] && b != []
    ensures CommonSuffix(a, b, n + 1) <==>
      a[|a| - 1] == b[|b| - 1] && CommonSuffix(a[..|a| - 1], b[..|b| - 1], n)
  {
    var a', b' := a[..|a| - 1], b[..|b| - 1];
    if n + 1 <= |a| && n + 1 <= |b| {
      assert Tail(a, n + 1) == Tail(a', n) + [a[|a| - 1]];
      assert Tail(b, n + 1) == Tail(b', n) + [b[|b| - 1]];
      if Tail(a, n + 1) == Tail(b, n + 1) {
        assert Tail(a, n + 1)[n] == Tail(b, n + 1)[n];
        assert Tail(a', n) == Tail(a, n + 1)[..n];
        assert Tail(b', n) == Tail(b, n + 1)[..n];
      }
    }
  }

  /** It is a common suffix, and no common suffix is longer. */
  lemma {:induction false} LcsIsLongest(a: seq<byte>, b: seq<byte>, n: nat)
    ensures CommonSuffix(a, b, n) <==> n <= Lcs(a, b)
    decreases |a|
  {
    if n == 0 {
    } else if a == [] || b == [] {
    } else {
      SuffixStep(a, b, n - 1);
      LcsIsLongest(a[..|a| - 1], b[..|b| - 1], n - 1);
    }
  }

  /** Decides the longest common suffix from a match and where it ends. */
  lemma LcsByMismatch(a: seq<byte>, b: seq<byte>, n: nat)
    requires CommonSuffix(a, b, n)
    requires n == |a| || n == |b| || a[|a| - 1 - n] != b[|b| - 1 - n]
    ensures Lcs(a, b) == n
  {
    LcsIsLongest(a, b, n);
    LcsIsLongest(a, b, n + 1);
    FirstOfSuffix(a, b, n);
  }

  lemma FirstOfSuffix(a: seq<byte>, b: seq<byte>, n: nat)
    ensures CommonSuffix(a, b, n + 1) ==> n < |a| && n < |b| && a[|a| - 1 - n] == b[|b| - 1 - n]
  {
    if n < |a| && n < |b| {
      assert Tail(a, n + 1)[0] == a[|a| - 1 - n] && Tail(b, n + 1)[0] == b[|b| - 1 - n];
    }
  }

  /** A longer match is one more equal byte in front. */
  lemma SuffixGrows(a: seq<byte>, b: seq<byte>, n: nat)
    requires CommonSuffix(a, b, n) && n < |a| && n < |b| && a[|a| - 1 - n] == b[|b| - 1 - n]
    ensures CommonSuffix(a, b, n + 1)
  {
    assert Tail(a, n + 1) == [a[|a| - 1 - n]] + Tail(a, n);
    assert Tail(b, n + 1) == [b[|b| - 1 - n]] + Tail(b, n);
  }

  // ----------------------------------------------------- one candidate item

  /** Bytes of the file that are compared in memory. */
  function InMemory(content: seq<byte>): nat { Min(|content|, INMEM_MAX) }

  /** Length of the match in memory: nothing without the last 16 bytes. */
  function MemMatch(item: Item, content: seq<byte>): nat {
    if |item.data| <= HASHLEN || !CommonSuffix(item.data, content, HASHLEN) then 0
    else Lcs(item.data, Tail(content, InMemory(content)))
  }

  /** Extends a match of `i` bytes chunk by chunk; the compared part of the packed
      file ends at `pos`. `io(i)` says whether the reads at that point succeed. */
  function Extend(packed: seq<byte>, content: seq<byte>, i: nat, pos: nat, io: nat -> bool): (r: nat)
    requires i <= |content| && pos <= |packed|
    ensures i <= r <= |content| && r <= i + pos
    decreases |content| - i
  {
    if i == |content| || pos == 0 then i
    else
      var sz := Min(Min(pos, CHUNK), |content| - i);
      if io(i) && packed[pos - sz..pos] == content[|content| - i - sz..|content| - i]
      then Extend(packed, content, i + sz, pos - sz, io)
      else i
  }

  function EndOf(item: Item): nat { item.pos + |item.data| }

  predicate ItemOk(packed: seq<byte>, item: Item) {
    HASHLEN < |item.data| <= INMEM_MAX && EndOf(item) <= |packed| && packed[item.pos..EndOf(item)] == item.data
  }

  lemma MemMatchBound(item: Item, content: seq<byte>)
    ensures MemMatch(item, content) <= |item.data| && MemMatch(item, content) <= InMemory(content) <= |content|
  {
    LcsIsLongest(item.data, Tail(content, InMemory(content)), Lcs(item.data, Tail(content, InMemory(content))));
  }

  /** The length `ZErofsFragmentsDedupeFind` computes for a candidate. */
  function MatchLen(packed: seq<byte>, item: Item, content: seq<byte>, io: nat -> bool): (r: nat)
    requires ItemOk(packed, item)
    ensures r <= |content| && r <= EndOf(item)
  {
    MemMatchBound(item, content);
    var i := MemMatch(item, content);
    if i > 0 && i >= InMemory(content) then Extend(packed, content, i, EndOf(item) - i, io) else i
  }

  /** A match of `i` bytes of the packed file that ends at `end`. */
  predicate Matches(packed: seq<byte>, end: nat, content: seq<byte>, i: nat) {
    end <= |packed| && CommonSuffix(packed[..end], content, i)
  }

  lemma MatchesChunk(packed: seq<byte>, content: seq<byte>, i: nat, pos: nat, sz: nat)
    requires sz <= pos && i + sz <= |content| && Matches(packed, pos + i, content, i)
    ensures Matches(packed, pos + i, content, i + sz) <==>
      packed[pos - sz..pos] == content[|content| - i - sz..|content| - i]
  {
    var a := packed[..pos + i];
    var c, d := packed[pos - sz..pos], content[|content| - i - sz..|content| - i];
    assert Tail(a, i + sz) == c + Tail(a, i);
    assert Tail(content, i + sz) == d + Tail(content, i);
    if c + Tail(a, i) == d + Tail(content, i) {
      assert c == (c + Tail(a, i))[..sz] == (d + Tail(content, i))[..sz] == d;
    }
  }

  lemma SuffixFits(a: seq<byte>, b: seq<byte>, n: nat)
    ensures CommonSuffix(a, b, n) ==> n <= |a| && n <= |b|
  {
  }

  /** The extension is sound, and with all reads successful it stops less than a
      chunk short of the longest match. */
  lemma {:induction false} ExtendSound(packed: seq<byte>, content: seq<byte>, i: nat, pos: nat, io: nat -> bool)
    requires i <= |content| && pos + i <= |packed| && Matches(packed, pos + i, content, i)
    ensures Matches(packed, pos + i, content, Extend(packed, content, i, pos, io))
    ensures (forall j :: io(j)) ==> Lcs(packed[..pos + i], content) < Extend(packed, content, i, pos, io) + CHUNK
    decreases |content| - i
  {
    hide CommonSuffix, Lcs;
    var a := packed[..pos + i];
    if i == |content| || pos == 0 {
      SuffixFits(a, content, i + 1);
      LcsIsLongest(a, content, i + 1);
    } else {
      var sz := Min(Min(pos, CHUNK), |content| - i);
      MatchesChunk(packed, content, i, pos, sz);
      if io(i) && packed[pos - sz..pos] == content[|content| - i - sz..|content| - i] {
        assert pos - sz + (i + sz) == pos + i;
        ExtendSound(packed, content, i + sz, pos - sz, io);
      } else {
        LcsIsLongest(a, content, i + sz);
      }
    }
  }

  lemma TailOfTail(s: seq<byte>, n: nat, m: nat)
    requires m <= n <= |s|
    ensures Tail(Tail(s, n), m) == Tail(s, m)
  {
  }

  /** A match of the item's own data is a match of the packed file. */
  lemma DataMatches(packed: seq<byte>, item: Item, content: seq<byte>, i: nat)
    requires ItemOk(packed, item) && CommonSuffix(item.data, content, i)
    ensures Matches(packed, EndOf(item), content, i)
  {
    var a := packed[..EndOf(item)];
    assert Tail(a, |item.data|) == item.data;
    TailOfTail(a, |item.data|, i);
  }

  lemma MemMatchSound(item: Item, content: seq<byte>)
    ensures CommonSuffix(item.data, content, MemMatch(item, content))
  {
    MemMatchBound(item, content);
    var i := MemMatch(item, content);
    if i > 0 {
      var t := Tail(content, InMemory(content));
      LcsIsLongest(item.data, t, i);
      TailOfTail(content, InMemory(content), i);
    }
  }

  /** Every match length found is a real match with the packed file. */
  lemma MatchSound(packed: seq<byte>, item: Item, content: seq<byte>, io: nat -> bool)
    requires ItemOk(packed, item)
    ensures Matches(packed, EndOf(item), content, MatchLen(packed, item, content, io))
  {
    hide CommonSuffix, Lcs, MemMatch, Extend;
    MemMatchBound(item, content);
    MemMatchSound(item, content);
    var i := MemMatch(item, content);
    DataMatches(packed, item, content, i);
    if i > 0 && i >= InMemory(content) { ExtendSound(packed, content, i, EndOf(item) - i, io); }
  }

  /** A shorter common suffix, and the same one in the loaded part of the file. */
  lemma SuffixWithin(a: seq<byte>, b: seq<byte>, n: nat, m: nat)
    requires CommonSuffix(a, b, n) && m <= n
    ensures CommonSuffix(a, b, m) && CommonSuffix(a, Tail(b, n), n)
  {
    TailOfTail(a, n, m);
    TailOfTail(b, n, m);
    TailOfTail(b, n, n);
  }

  lemma MemMatchFull(item: Item, content: seq<byte>)
    requires |item.data| > HASHLEN && |content| > HASHLEN
    ensures CommonSuffix(item.data, content, InMemory(content)) <==> MemMatch(item, content) == InMemory(content)
  {
    hide Lcs, CommonSuffix;
    var n := InMemory(content);
    MemMatchBound(item, content);
    MemMatchSound(item, content);
    if CommonSuffix(item.data, content, n) {
      SuffixWithin(item.data, content, n, HASHLEN);
      LcsIsLongest(item.data, Tail(content, n), n);
    }
  }

  /** Whether the search leaves memory depends on whether what is in memory matches
      as a whole. */
  lemma ShortOrLong(packed: seq<byte>, item: Item, content: seq<byte>, io: nat -> bool)
    requires ItemOk(packed, item) && |content| > HASHLEN
    ensures var i, n := MatchLen(packed, item, content, io), InMemory(content);
      if CommonSuffix(item.data, content, n) then i >= n else i < n && i == MemMatch(item, content)
  {
    hide CommonSuffix, MemMatch, InMemory, Extend;
    MemMatchBound(item, content);
    MemMatchFull(item, content);
  }

  /** If it does not, the length is the exact longest common suffix of the file with
      the remembered data. */
  lemma ShortMatchExact(packed: seq<byte>, item: Item, content: seq<byte>, io: nat -> bool)
    requires ItemOk(packed, item) && |content| > HASHLEN
    requires CommonSuffix(item.data, content, HASHLEN)
    requires !CommonSuffix(item.data, content, InMemory(content))
    ensures MatchLen(packed, item, content, io) == Lcs(item.data, content)
  {
    hide MatchLen, Extend;
    ShortOrLong(packed, item, content, io);
    MemMatchBound(item, content);
    MemMatchSound(item, content);
    var s := InMemory(content);
    var t := Tail(content, s);
    var i := MemMatch(item, content);
    LcsIsLongest(item.data, t, i + 1);
    LcsIsLongest(item.data, content, i);
    LcsIsLongest(item.data, content, i + 1);
    TailOfTail(content, s, i + 1);
  }

  /** Whether the file ends with all of the remembered data and goes on in front of
      them as the packed file does, where the search does not look. */
  predicate StopsShort(packed: seq<byte>, item: Item, content: seq<byte>)
    requires EndOf(item) <= |packed|
  {
    && |item.data| < InMemory(content) && CommonSuffix(item.data, content, |item.data|)
    && item.pos > 0 && packed[item.pos - 1] == content[|content| - 1 - |item.data|]
  }

  /** When what is in memory does not match as a whole, the length is that of the
      longest common suffix with the packed file up to the end of the item if and
      only if the search does not stop short at the start of the item. */
  lemma ShortMatchExactIff(packed: seq<byte>, item: Item, content: seq<byte>, io: nat -> bool)
    requires ItemOk(packed, item) && |content| > HASHLEN
    requires CommonSuffix(item.data, content, HASHLEN)
    requires !CommonSuffix(item.data, content, InMemory(content))
    ensures MatchLen(packed, item, content, io) == Lcs(packed[..EndOf(item)], content)
      <==> !StopsShort(packed, item, content)
  {
    hide CommonSuffix, Lcs, MemMatch, MatchLen;
    ShortOrLong(packed, item, content, io);
    var i := MatchLen(packed, item, content, io);
    var a := packed[..EndOf(item)];
    ShortMatchExact(packed, item, content, io);
    MatchSound(packed, item, content, io);
    LcsIsLongest(item.data, content, i);
    LcsIsLongest(item.data, content, |item.data|);
    SuffixFits(item.data, content, i);
    if i < |item.data| {
      DataStops(packed, item, content, i);
      LcsByMismatch(a, content, i);
    } else if StopsShort(packed, item, content) {
      SuffixGrows(a, content, i);
      LcsIsLongest(a, content, i + 1);
    } else {
      LcsByMismatch(a, content, i);
    }
  }

  /** An input for which it does: the byte in front of the remembered one
      matches as well, and the search misses it. */
  lemma SearchCanStopShort(io: nat -> bool)
    ensures var d := seq(17, _ => 7);
      var item := Item(1, d);
      && ItemOk([9] + d, item)
      && MatchLen([9] + d, item, [5, 9] + d, io) == 17
      && Lcs(([9] + d)[..EndOf(item)], [5, 9] + d) == 18
  {
    var d: seq<byte> := seq(17, _ => 7);
    var packed, content, item := [9] + d, [5, 9] + d, Item(1, d);
    assert packed[1..18] == d && packed[..18] == packed;
    assert Tail(content, 16) == Tail(d, 16) && Tail(content, 17) == Tail(d, 17) && Tail(content, 19) == content;
    LcsByMismatch(d, content, 17);
    assert Tail(content, 18) == packed == Tail(packed, 18);
    LcsByMismatch(packed, content, 18);
  }

  /** Where the remembered data differ, the packed file does. */
  lemma DataStops(packed: seq<byte>, item: Item, content: seq<byte>, i: nat)
    requires ItemOk(packed, item) && i == Lcs(item.data, content) && i < |item.data| && i < |content|
    ensures packed[EndOf(item) - 1 - i] != content[|content| - 1 - i]
  {
    hide Lcs, CommonSuffix;
    LcsIsLongest(item.data, content, i);
    assert item.data[|item.data| - 1 - i] == packed[EndOf(item) - 1 - i];
    if packed[EndOf(item) - 1 - i] == content[|content| - 1 - i] {
      SuffixGrows(item.data, content, i);
      LcsIsLongest(item.data, content, i + 1);
    }
  }

  /** A chunk in front of a match is equal if and only if the longest match has it. */
  lemma ChunkIff(packed: seq<byte>, content: seq<byte>, i: nat, pos: nat, sz: nat)
    requires sz <= pos && i + sz <= |content| && pos + i <= |packed| && Matches(packed, pos + i, content, i)
    ensures packed[pos - sz..pos] == content[|content| - i - sz..|content| - i]
      <==> i + sz <= Lcs(packed[..pos + i], content)
    ensures i + sz <= Lcs(packed[..pos + i], content) ==> Matches(packed, pos + i, content, i + sz)
  {
    hide CommonSuffix, Lcs;
    MatchesChunk(packed, content, i, pos, sz);
    LcsIsLongest(packed[..pos + i], content, i + sz);
  }

  lemma MatchBounds(packed: seq<byte>, content: seq<byte>, i: nat, end: nat)
    requires end <= |packed| && Matches(packed, end, content, i)
    ensures i <= Lcs(packed[..end], content) <= Min(|content|, end)
  {
    hide CommonSuffix, Lcs;
    var a := packed[..end];
    LcsIsLongest(a, content, i);
    LcsIsLongest(a, content, Lcs(a, content));
    SuffixFits(a, content, Lcs(a, content));
  }

  /** The longest match `l` if it reaches `end`, and otherwise as much of it as a
      match of `i` bytes and whole chunks make up. */
  function WholeChunks(l: nat, i: nat, end: nat): int { if l == end then l else l - (l - i) % CHUNK }

  lemma ReachesEnd(l: nat, i: nat, end: nat)
    ensures l == end ==> WholeChunks(l, i, end) == l
  {
  }

  lemma OneChunk(l: nat, i: nat, end: nat, sz: nat)
    requires i <= l <= end && 0 < sz && sz == Min(end - i, CHUNK)
    ensures i + sz <= l ==> WholeChunks(l, i, end) == WholeChunks(l, i + sz, end)
    ensures l < i + sz ==> WholeChunks(l, i, end) == i
  {
  }

  /** With all reads successful the extension goes on in whole chunks up to the
      longest match, and by the remainder only to the start of either file. */
  lemma {:induction false} ExtendExact(packed: seq<byte>, content: seq<byte>, i: nat, pos: nat, io: nat -> bool)
    requires forall j :: io(j)
    requires i <= |content| && pos + i <= |packed| && Matches(packed, pos + i, content, i)
    ensures var l := Lcs(packed[..pos + i], content);
      && i <= l <= Min(|content|, pos + i)
      && Extend(packed, content, i, pos, io) == WholeChunks(l, i, Min(|content|, pos + i))
    decreases |content| - i
  {
    hide Matches, Lcs, WholeChunks;
    var l := Lcs(packed[..pos + i], content);
    ReachesEnd(l, i, Min(|content|, pos + i));
    MatchBounds(packed, content, i, pos + i);
    if i < |content| && pos > 0 {
      var sz := Min(Min(pos, CHUNK), |content| - i);
      ChunkIff(packed, content, i, pos, sz);
      if packed[pos - sz..pos] == content[|content| - i - sz..|content| - i] {
        assert pos - sz + (i + sz) == pos + i;
        ExtendExact(packed, content, i + sz, pos - sz, io);
      }
      OneChunk(l, i, Min(|content|, pos + i), sz);
    }
  }

  /** If it does, and with all reads successful, the length is the longest common
      suffix with the packed file when that reaches the start of either file, and
      otherwise as much of it as fills whole chunks in front of memory. */
  lemma LongMatchExact(packed: seq<byte>, item: Item, content: seq<byte>, io: nat -> bool)
    requires ItemOk(packed, item) && |content| > HASHLEN && forall j :: io(j)
    requires CommonSuffix(item.data, content, InMemory(content))
    ensures var l := Lcs(packed[..EndOf(item)], content);
      && InMemory(content) <= l <= Min(|content|, EndOf(item))
      && MatchLen(packed, item, content, io) ==
           if l == Min(|content|, EndOf(item)) then l else l - (l - InMemory(content)) % 16384
  {
    hide CommonSuffix, Lcs, Extend, MemMatch;
    MemMatchBound(item, content);
    MemMatchFull(item, content);
    var i := InMemory(content);
    DataMatches(packed, item, content, i);
    ExtendExact(packed, content, i, EndOf(item) - i, io);
  }

  /** So it is the longest common suffix if and only if that reaches the start of
      either file or ends with a chunk. */
  lemma LongMatchExactIff(packed: seq<byte>, item: Item, content: seq<byte>, io: nat -> bool)
    requires ItemOk(packed, item) && |content| > HASHLEN && forall j :: io(j)
    requires CommonSuffix(item.data, content, InMemory(content))
    ensures var l := Lcs(packed[..EndOf(item)], content);
      && l >= InMemory(content)
      && (MatchLen(packed, item, content, io) == l
          <==> l == Min(|content|, EndOf(item)) || (l - InMemory(content)) % 16384 == 0)
  {
    hide CommonSuffix, Lcs, Extend, MatchLen;
    LongMatchExact(packed, item, content, io);
  }

  /** And it is always less than one chunk short of it. */
  lemma LongMatchNearMaximal(packed: seq<byte>, item: Item, content: seq<byte>, io: nat -> bool)
    requires ItemOk(packed, item) && |content| > HASHLEN && forall j :: io(j)
    requires CommonSuffix(item.data, content, InMemory(content))
    ensures Lcs(packed[..EndOf(item)], content) < MatchLen(packed, item, content, io) + 16384
  {
    hide CommonSuffix, Lcs, Extend, MatchLen;
    LongMatchExact(packed, item, content, io);
  }

  /** An input for which it is one byte short: the file and the packed file differ in
      their first byte, which is compared together with the second one. */
  lemma LongMatchCanStopShort(io: nat -> bool)
    requires forall j :: io(j)
    ensures var d: seq<byte> := seq(INMEM_MAX, _ => 7);
      var packed, content := [2, 7] + d, [1, 7] + d;
      && ItemOk(packed, Item(2, d))
      && MatchLen(packed, Item(2, d), content, io) == INMEM_MAX
      && Lcs(packed[..EndOf(Item(2, d))], content) == INMEM_MAX + 1
  {
    hide MatchLen, Lcs;
    var d: seq<byte> := seq(INMEM_MAX, _ => 7);
    var packed, content, item := [2, 7] + d, [1, 7] + d, Item(2, d);
    assert packed[2..EndOf(item)] == d && packed[..EndOf(item)] == packed;
    assert Tail(d, INMEM_MAX) == d == Tail(content, INMEM_MAX);
    assert Tail(packed, INMEM_MAX + 1) == [7] + d == Tail(content, INMEM_MAX + 1);
    LcsByMismatch(packed, content, INMEM_MAX + 1);
    LongMatchExact(packed, item, content, io);
  }

  // -------------------------------------------------------------- the search

  datatype Found = Found(len: nat, end: nat)

  ghost predicate ItemsOk(packed: seq<byte>, items: seq<Item>) {
    forall i :: 0 <= i < |items| ==> ItemOk(packed, items[i])
  }

  /** The loop over the candidates of a slot: the first longest match, and no
      further ones once the whole file is covered. */
  function Scan(packed: seq<byte>, items: seq<Item>, content: seq<byte>, io: nat -> bool, best: Found): Found
    requires ItemsOk(packed, items)
  {
    if items == [] then best
    else
      var i := MatchLen(packed, items[0], content, io);
      if i <= best.len then Scan(packed, items[1..], content, io, best)
      else if i == |content| then Found(i, EndOf(items[0]))
      else Scan(packed, items[1..], content, io, Found(i, EndOf(items[0])))
  }

  /** The result of the search is a real match, and no candidate has a longer one. */
  lemma {:induction false} ScanIsBest(packed: seq<byte>, items: seq<Item>, content: seq<byte>, io: nat -> bool, best: Found)
    requires ItemsOk(packed, items) && best.len <= |content|
    requires best.len > 0 ==> Matches(packed, best.end, content, best.len)
    ensures var r := Scan(packed, items, content, io, best);
      && best.len <= r.len <= |content|
      && (r.len > 0 ==> Matches(packed, r.end, content, r.len))
      && forall j :: 0 <= j < |items| ==> MatchLen(packed, items[j], content, io) <= r.len
    decreases items
  {
    hide Matches, MatchLen;
    if items != [] {
      var i := MatchLen(packed, items[0], content, io);
      MatchSound(packed, items[0], content, io);
      assert forall j :: 0 < j < |items| ==> items[j] == items[1..][j - 1];
      if i <= best.len {
        ScanIsBest(packed, items[1..], content, io, best);
      } else if i < |content| {
        ScanIsBest(packed, items[1..], content, io, Found(i, EndOf(items[0])));
      }
    }
  }

  /** Of the candidates with the longest match the first one is taken. */
  lemma {:induction false} ScanIsFirst(packed: seq<byte>, items: seq<Item>, content: seq<byte>, io: nat -> bool, best: Found, j: nat)
    requires ItemsOk(packed, items) && best.len <= |content| && j < |items|
    requires MatchLen(packed, items[j], content, io) > best.len
    requires forall l :: 0 <= l < j ==> MatchLen(packed, items[l], content, io) < MatchLen(packed, items[j], content, io)
    requires forall l :: j < l < |items| ==> MatchLen(packed, items[l], content, io) <= MatchLen(packed, items[j], content, io)
    ensures Scan(packed, items, content, io, best) == Found(MatchLen(packed, items[j], content, io), EndOf(items[j]))
    decreases items
  {
    hide MatchLen;
    var i := MatchLen(packed, items[0], content, io);
    if j == 0 {
      if i < |content| { ScanStays(packed, items[1..], content, io, Found(i, EndOf(items[0]))); }
    } else {
      ScanIsFirst(packed, items[1..], content, io, if i <= best.len then best else Found(i, EndOf(items[0])), j - 1);
    }
  }

  lemma {:induction false} ScanStays(packed: seq<byte>, items: seq<Item>, content: seq<byte>, io: nat -> bool, best: Found)
    requires ItemsOk(packed, items)
    requires forall l :: 0 <= l < |items| ==> MatchLen(packed, items[l], content, io) <= best.len
    ensures Scan(packed, items, content, io, best) == best
    decreases items
  {
    hide MatchLen;
    if items != [] { ScanStays(packed, items[1..], content, io, best); }
  }

  // --------------------------------------------------------------- the store

  datatype Store = Store(packed: seq<byte>, table: Table, tof: word)

  ghost predicate StoreOk(s: Store) {
    forall k :: k in s.table ==> ItemsOk(s.packed, s.table[k])
  }

  const SEED: word := 0xFFFF_FFFF

  /** Checksum of the last 16 bytes. */
  function TofCrc(content: seq<byte>): word
    requires |content| > HASHLEN
  {
    Crc(SEED, Tail(content, HASHLEN))
  }

  /** A reference of a file into the packed file. */
  datatype Ref = Ref(off: nat, size: nat)

  /** `ZErofsFragmentsDedupe` and the search it calls: the reference found, or
      one of size zero, and the checksum that is kept. */
  function Find(s: Store, content: seq<byte>, io: nat -> bool): Ref
    requires StoreOk(s)
  {
    if |content| <= HASHLEN then Ref(0, 0)
    else
      var k := Hash(TofCrc(content));
      var r := Scan(s.packed, Slot(s.table, k), content, io, Found(0, 0));
      ScanIsBest(s.packed, Slot(s.table, k), content, io, Found(0, 0));
      if r.len > 0 then Ref(r.end - r.len, r.len) else Ref(0, 0)
  }

  function NewTof(s: Store, content: seq<byte>): word {
    if |content| <= HASHLEN then s.tof else TofCrc(content)
  }

  /** `ZErofsFragmentsDedupeInsert`: the last 256 KiB of what was packed. */
  function Insert(t: Table, k: nat, data: seq<byte>, pos: nat): Table {
    if |data| <= HASHLEN then t
    else
      var n := Min(|data|, INMEM_MAX);
      t[k := Slot(t, k) + [Item(pos + |data| - n, Tail(data, n))]]
  }

  /** `ZErofsPackFileFromFd`. The tail is remembered when the file could be
      mapped into memory. */
  function Pack(s: Store, content: seq<byte>, mapped: bool): Store {
    s.(packed := s.packed + content,
       table := if mapped then Insert(s.table, Hash(s.tof), content, |s.packed|) else s.table)
  }

  datatype DedupeMode = Full | WholeInode | Off

  /** Configuration and circumstances of one file. */
  datatype File = File(content: seq<byte>, fragments: bool, allFragments: bool, packedInode: bool,
                       mode: DedupeMode, mapped: bool, io: nat -> bool)

  predicate Dedupes(f: File) { f.fragments && !f.packedInode && f.mode != Off }

  /** The reference after the dedupe part of the step. */
  function Deduped(s: Store, f: File): Ref
    requires StoreOk(s)
  {
    if !Dedupes(f) then Ref(0, 0)
    else
      var r := Find(s, f.content, f.io);
      if f.mode == WholeInode && r.size < |f.content| then r.(size := 0) else r
  }

  predicate Packs(s: Store, f: File)
    requires StoreOk(s)
  {
    f.allFragments && !f.packedInode && Deduped(s, f).size == 0
  }

  /** The dedupe-or-pack step of `ErofsBeginCompressedFile`. */
  function Begin(s: Store, f: File): (Store, Ref)
    requires StoreOk(s)
  {
    var t := if Dedupes(f) then s.(tof := NewTof(s, f.content)) else s;
    if Packs(s, f) then (Pack(t, f.content, f.mapped), Ref(|s.packed|, |f.content|))
    else (t, Deduped(s, f))
  }

  // --------------------------------------------------------------- whole runs

  /** A reference decodes to the last `size` bytes of its file. */
  predicate Decodes(packed: seq<byte>, content: seq<byte>, r: Ref) {
    r.size <= |content| && (r.size > 0 ==> r.off + r.size <= |packed| && packed[r.off..r.off + r.size] == Tail(content, r.size))
  }

  lemma DecodesLater(packed: seq<byte>, more: seq<byte>, content: seq<byte>, r: Ref)
    requires Decodes(packed, content, r)
    ensures Decodes(packed + more, content, r)
  {
    if r.size > 0 { assert (packed + more)[r.off..r.off + r.size] == packed[r.off..r.off + r.size]; }
  }

  lemma ItemLater(packed: seq<byte>, more: seq<byte>, item: Item)
    requires ItemOk(packed, item)
    ensures ItemOk(packed + more, item)
  {
    assert (packed + more)[item.pos..EndOf(item)] == packed[item.pos..EndOf(item)];
  }

  lemma PackOk(s: Store, content: seq<byte>, mapped: bool)
    requires StoreOk(s)
    ensures StoreOk(Pack(s, content, mapped))
  {
    var t := Pack(s, content, mapped);
    var k0 := Hash(s.tof);
    forall k | k in t.table ensures ItemsOk(t.packed, t.table[k]) {
      forall i | 0 <= i < |t.table[k]| ensures ItemOk(t.packed, t.table[k][i]) {
        if i < |Slot(s.table, k)| {
          assert t.table[k][i] == s.table[k][i];
          ItemLater(s.packed, content, s.table[k][i]);
        } else {
          var n := Min(|content|, INMEM_MAX);
          var item := t.table[k][i];
          assert item == Item(|s.packed| + |content| - n, Tail(content, n));
          assert t.packed[item.pos..EndOf(item)] == Tail(content, n);
        }
      }
    }
  }

  lemma FindDecodes(s: Store, content: seq<byte>, io: nat -> bool)
    requires StoreOk(s)
    ensures Decodes(s.packed, content, Find(s, content, io))
  {
    if |content| > HASHLEN {
      var k := Hash(TofCrc(content));
      var r := Scan(s.packed, Slot(s.table, k), content, io, Found(0, 0));
      ScanIsBest(s.packed, Slot(s.table, k), content, io, Found(0, 0));
      if r.len > 0 {
        assert Tail(s.packed[..r.end], r.len) == s.packed[r.end - r.len..r.end];
      }
    }
  }

  lemma InsertKeeps(t: Table, k: nat, data: seq<byte>, pos: nat, l: nat, i: nat)
    requires i < |Slot(t, l)|
    ensures i < |Slot(Insert(t, k, data, pos), l)| && Slot(Insert(t, k, data, pos), l)[i] == Slot(t, l)[i]
  {
  }

  /** Nothing that was remembered is forgotten or changed. */
  lemma BeginKeepsItem(s: Store, f: File, k: nat, i: nat)
    requires StoreOk(s) && i < |Slot(s.table, k)|
    ensures i < |Slot(Begin(s, f).0.table, k)| && Slot(Begin(s, f).0.table, k)[i] == Slot(s.table, k)[i]
  {
    hide Deduped, Insert;
    var t0 := if Dedupes(f) then s.(tof := NewTof(s, f.content)) else s;
    InsertKeeps(s.table, Hash(t0.tof), f.content, |s.packed|, k, i);
  }

  /** One step keeps every remembered item right, only appends to the packed
      file, and gives the file a reference that decodes. */
  lemma BeginOk(s: Store, f: File)
    requires StoreOk(s)
    ensures var (t, r) := Begin(s, f);
      StoreOk(t) && s.packed <= t.packed && Decodes(t.packed, f.content, r)
  {
    hide Find, Insert, StoreOk, Decodes, NewTof;
    FindDecodes(s, f.content, f.io);
    NothingDecodes(s.packed, f.content, Find(s, f.content, f.io));
    var t0 := if Dedupes(f) then s.(tof := NewTof(s, f.content)) else s;
    TofKeepsOk(s, t0.tof);
    PackOk(t0, f.content, f.mapped);
    WholeDecodes(s.packed, f.content);
  }

  lemma TofKeepsOk(s: Store, tof: word)
    requires StoreOk(s)
    ensures StoreOk(s.(tof := tof))
  {
  }

  lemma NothingDecodes(packed: seq<byte>, content: seq<byte>, r: Ref)
    ensures Decodes(packed, content, Ref(0, 0)) && Decodes(packed, content, r.(size := 0))
  {
  }

  /** A file that was just appended is found at its place. */
  lemma WholeDecodes(packed: seq<byte>, content: seq<byte>)
    ensures packed <= packed + content && Decodes(packed + content, content, Ref(|packed|, |content|))
  {
    var t := packed + content;
    assert t[|packed|..|packed| + |content|] == content;
    assert Tail(content, |content|) == content;
  }

  ghost function Run(s: Store, files: seq<File>): (Store, seq<Ref>)
    requires StoreOk(s)
    decreases files
  {
    if files == [] then (s, [])
    else
      BeginOk(s, files[0]);
      var (t, r) := Begin(s, files[0]);
      var (u, rs) := Run(t, files[1..]);
      (u, [r] + rs)
  }

  /** Over any sequence of files, every remembered item stays equal to its slice
      of the packed file, and every reference handed out decodes to the end of
      its own file after all later steps. */
  lemma {:induction false} RunDecodes(s: Store, files: seq<File>)
    requires StoreOk(s)
    ensures var (u, rs) := Run(s, files);
      && StoreOk(u) && s.packed <= u.packed && |rs| == |files|
      && forall n :: 0 <= n < |files| ==> Decodes(u.packed, files[n].content, rs[n])
    decreases files
  {
    hide Begin, Decodes, StoreOk;
    if files != [] {
      BeginOk(s, files[0]);
      var (t, r) := Begin(s, files[0]);
      var (u, rs) := Run(t, files[1..]);
      RunDecodes(t, files[1..]);
      assert u.packed == t.packed + u.packed[|t.packed|..];
      DecodesLater(t.packed, u.packed[|t.packed|..], files[0].content, r);
      forall n | 0 <= n < |files| ensures Decodes(u.packed, files[n].content, ([r] + rs)[n]) {
        if n > 0 { assert files[n] == files[1..][n - 1]; }
      }
    }
  }

  lemma {:induction false} RunKeepsItems(s: Store, files: seq<File>, k: nat, i: nat)
    requires StoreOk(s) && i < |Slot(s.table, k)|
    ensures i < |Slot(Run(s, files).0.table, k)| && Slot(Run(s, files).0.table, k)[i] == Slot(s.table, k)[i]
    decreases files
  {
    if files != [] {
      BeginOk(s, files[0]);
      BeginKeepsItem(s, files[0], k, i);
      RunKeepsItems(Begin(s, files[0]).0, files[1..], k, i);
    }
  }

  // ---------------------------------------------------------- completeness

  /** With all reads successful, the extension of a file that lies completely in
      the packed file reaches its start. */
  lemma {:induction false} ExtendCovers(packed: seq<byte>, content: seq<byte>, i: nat, pos: nat, io: nat -> bool)
    requires forall j :: io(j)
    requires i <= |content| <= pos + i <= |packed| && Matches(packed, pos + i, content, |content|)
    ensures Extend(packed, content, i, pos, io) == |content|
    decreases |content| - i
  {
    hide CommonSuffix, Lcs;
    if i < |content| {
      var a := packed[..pos + i];
      LcsIsLongest(a, content, |content|);
      LcsIsLongest(a, content, i);
      var sz := Min(Min(pos, CHUNK), |content| - i);
      LcsIsLongest(a, content, i + sz);
      MatchesChunk(packed, content, i, pos, sz);
      assert pos - sz + (i + sz) == pos + i;
      ExtendCovers(packed, content, i + sz, pos - sz, io);
    }
  }

  /** The item a packed file leaves behind matches the whole file. */
  lemma OwnItemMatches(packed: seq<byte>, item: Item, content: seq<byte>, io: nat -> bool)
    requires ItemOk(packed, item) && |content| > HASHLEN && forall j :: io(j)
    requires item.data == Tail(content, InMemory(content))
    requires Matches(packed, EndOf(item), content, |content|)
    ensures MatchLen(packed, item, content, io) == |content|
  {
    var s := InMemory(content);
    TailOfTail(content, s, HASHLEN);
    LcsIsLongest(item.data, Tail(content, s), s);
    LcsIsLongest(item.data, Tail(content, s), s + 1);
    assert MemMatch(item, content) == s;
    ExtendCovers(packed, content, s, EndOf(item) - s, io);
  }

  /** What packing a file leaves in the store. */
  lemma PackedItem(s: Store, f: File)
    requires StoreOk(s) && Dedupes(f) && Packs(s, f) && f.mapped && |f.content| > HASHLEN
    ensures var t, k, i := Begin(s, f).0, Hash(TofCrc(f.content)), |Slot(s.table, Hash(TofCrc(f.content)))|;
      && t.packed == s.packed + f.content
      && i < |Slot(t.table, k)|
      && Slot(t.table, k)[i] == OwnItem(s, f.content)
  {
    hide Deduped;
  }

  function OwnItem(s: Store, content: seq<byte>): Item {
    var n := Min(|content|, INMEM_MAX);
    Item(|s.packed| + |content| - n, Tail(content, n))
  }

  lemma OwnItemEnds(s: Store, content: seq<byte>, packed: seq<byte>)
    requires s.packed + content <= packed
    ensures EndOf(OwnItem(s, content)) == |s.packed| + |content|
    ensures Matches(packed, EndOf(OwnItem(s, content)), content, |content|)
  {
    assert packed[..|s.packed| + |content|] == s.packed + content;
    assert Tail(s.packed + content, |content|) == content == Tail(content, |content|);
  }

  /** A search that has a candidate with a match of the whole file finds it. */
  lemma FindCovers(s: Store, content: seq<byte>, io: nat -> bool, i: nat)
    requires StoreOk(s) && |content| > HASHLEN && i < |Slot(s.table, Hash(TofCrc(content)))|
    requires MatchLen(s.packed, Slot(s.table, Hash(TofCrc(content)))[i], content, io) == |content|
    ensures Find(s, content, io).size == |content|
  {
    hide MatchLen, Scan, Matches, Crc;
    ScanIsBest(s.packed, Slot(s.table, Hash(TofCrc(content))), content, io, Found(0, 0));
  }

  /** What packing a file left in the store is there after any later steps. */
  lemma OwnItemStays(s: Store, f: File, files: seq<File>)
    requires StoreOk(s) && Dedupes(f) && Packs(s, f) && f.mapped && |f.content| > HASHLEN
    ensures StoreOk(Begin(s, f).0) && StoreOk(Run(Begin(s, f).0, files).0)
    ensures var u, k, i := Run(Begin(s, f).0, files).0, Hash(TofCrc(f.content)), |Slot(s.table, Hash(TofCrc(f.content)))|;
      && s.packed + f.content <= u.packed
      && i < |Slot(u.table, k)| && Slot(u.table, k)[i] == OwnItem(s, f.content) && ItemOk(u.packed, Slot(u.table, k)[i])
  {
    hide Begin, Run, Packs, Crc, Dedupes, Insert, OwnItem;
    BeginOk(s, f);
    PackedItem(s, f);
    var t := Begin(s, f).0;
    var k := Hash(TofCrc(f.content));
    RunKeepsItems(t, files, k, |Slot(s.table, k)|);
    RunDecodes(t, files);
  }

  /** Once a file of more than 16 bytes was packed and remembered under its own
      checksum, a later search for the same content finds all of it, whatever
      was stored in between, also when the file exceeds the 256 KiB kept in
      memory. */
  lemma PackedFileIsFound(s: Store, f: File, files: seq<File>, io: nat -> bool)
    requires StoreOk(s) && Dedupes(f) && Packs(s, f) && f.mapped && |f.content| > HASHLEN
    requires forall j :: io(j)
    ensures StoreOk(Begin(s, f).0) && StoreOk(Run(Begin(s, f).0, files).0)
    ensures Find(Run(Begin(s, f).0, files).0, f.content, io).size == |f.content|
  {
    hide Begin, Run, Packs, MatchLen, Scan, Matches, Find, Crc, Dedupes, Insert;
    OwnItemStays(s, f, files);
    var u := Run(Begin(s, f).0, files).0;
    OwnItemEnds(s, f.content, u.packed);
    OwnItemMatches(u.packed, OwnItem(s, f.content), f.content, io);
    FindCovers(u, f.content, io, |Slot(s.table, Hash(TofCrc(f.content)))|);
  }

  // ------------------------------------------------ nothing is missed

  /** The kept checksum without its seed: it starts from zero, over the last 16 bytes
      with the first four of them inverted. */
  lemma TofCrcIs(content: seq<byte>)
    requires |content| > 16
    ensures TofCrc(content) == Crc(0, Inverted(content[|content| - 16..]))
  {
    hide Crc, Inverted;
    FromAllOnes(Tail(content, HASHLEN));
  }

  /** A candidate that shares the last `n` bytes with the file gives a match at least
      that long, if these are at least 16 and lie in memory. */
  lemma MatchAtLeast(packed: seq<byte>, item: Item, content: seq<byte>, io: nat -> bool, n: nat)
    requires ItemOk(packed, item) && 16 <= n <= InMemory(content) && CommonSuffix(item.data, content, n)
    ensures MatchLen(packed, item, content, io) >= n
  {
    hide CommonSuffix, Lcs, Extend;
    var t := Tail(content, InMemory(content));
    SuffixWithin(item.data, content, n, HASHLEN);
    LoadedSuffix(item.data, content, n);
    LcsIsLongest(item.data, t, n);
  }

  lemma LoadedSuffix(a: seq<byte>, b: seq<byte>, n: nat)
    requires n <= InMemory(b)
    ensures CommonSuffix(a, b, n) <==> CommonSuffix(a, Tail(b, InMemory(b)), n)
  {
    TailOfTail(b, InMemory(b), n);
  }

  /** Whatever is remembered lies in the slot of its own last 16 bytes. */
  ghost predicate Filed(t: Table) {
    forall k :: k in t ==> forall i :: 0 <= i < |t[k]| ==> FiledIn(k, t[k][i])
  }

  ghost predicate FiledIn(k: nat, item: Item) { |item.data| > HASHLEN && Hash(TofCrc(item.data)) == k }

  /** A file whose tail is remembered has its checksum taken first. */
  predicate TailSummed(f: File) {
    f.allFragments && !f.packedInode && f.mapped && |f.content| > 16 ==> f.fragments && f.mode != Off
  }

  lemma OwnTailFiled(content: seq<byte>, n: nat, pos: nat)
    requires HASHLEN < n <= |content|
    ensures FiledIn(Hash(TofCrc(content)), Item(pos, Tail(content, n)))
  {
    TailOfTail(content, n, HASHLEN);
  }

  lemma BeginFiles(s: Store, f: File)
    requires StoreOk(s) && Filed(s.table) && TailSummed(f)
    ensures Filed(Begin(s, f).0.table)
  {
    hide Deduped, FiledIn;
    var t, n := Begin(s, f).0.table, Min(|f.content|, INMEM_MAX);
    if |f.content| > HASHLEN { OwnTailFiled(f.content, n, |s.packed| + |f.content| - n); }
    forall k, i | k in t && 0 <= i < |t[k]| ensures FiledIn(k, t[k][i]) {
      if i < |Slot(s.table, k)| {
        BeginKeepsItem(s, f, k, i);
        assert FiledIn(k, s.table[k][i]);
      }
    }
  }

  lemma {:induction false} RunFiles(s: Store, files: seq<File>)
    requires StoreOk(s) && Filed(s.table) && forall f :: f in files ==> TailSummed(f)
    ensures Filed(Run(s, files).0.table)
    decreases files
  {
    hide Begin, Filed, StoreOk, TailSummed;
    if files != [] {
      BeginOk(s, files[0]);
      BeginFiles(s, files[0]);
      RunFiles(Begin(s, files[0]).0, files[1..]);
    }
  }

  /** No candidate of the slot of a file has a longer match than the one found. */
  lemma FindsCandidate(s: Store, content: seq<byte>, io: nat -> bool, i: nat)
    requires StoreOk(s) && |content| > HASHLEN && i < |Slot(s.table, Hash(TofCrc(content)))|
    ensures ItemOk(s.packed, Slot(s.table, Hash(TofCrc(content)))[i])
    ensures MatchLen(s.packed, Slot(s.table, Hash(TofCrc(content)))[i], content, io) <= Find(s, content, io).size
  {
    hide MatchLen, Scan, Crc;
    ScanIsBest(s.packed, Slot(s.table, Hash(TofCrc(content))), content, io, Found(0, 0));
  }

  /** The search misses nothing in the whole table: after any sequence of files whose
      tails are summed before they are remembered, every remembered tail, in whatever
      slot, that ends with the last 16 bytes of a file is a match of at least 16 bytes
      and no longer than the one found. */
  lemma NothingMissed(files: seq<File>, content: seq<byte>, io: nat -> bool, k: nat, i: nat)
    requires |content| > 16 && forall f :: f in files ==> TailSummed(f)
    requires var s := Run(Store([], map[], 0), files).0;
      && i < |Slot(s.table, k)| && |Slot(s.table, k)[i].data| > 16
      && Slot(s.table, k)[i].data[|Slot(s.table, k)[i].data| - 16..] == content[|content| - 16..]
    ensures var s := Run(Store([], map[], 0), files).0;
      && StoreOk(s) && ItemOk(s.packed, Slot(s.table, k)[i])
      && 16 <= MatchLen(s.packed, Slot(s.table, k)[i], content, io) <= Find(s, content, io).size
  {
    hide Run, MatchLen, Crc, Scan, CommonSuffix;
    RunDecodes(Store([], map[], 0), files);
    RunFiles(Store([], map[], 0), files);
    var s := Run(Store([], map[], 0), files).0;
    var item := Slot(s.table, k)[i];
    assert FiledIn(k, item) && TofCrc(item.data) == TofCrc(content);
    SameSixteen(item.data, content);
    MatchAtLeast(s.packed, item, content, io, HASHLEN);
    FindsCandidate(s, content, io, i);
  }

  lemma SameSixteen(a: seq<byte>, b: seq<byte>)
    requires |a| > 16 && |b| > 16 && a[|a| - 16..] == b[|b| - 16..]
    ensures CommonSuffix(a, b, 16)
  {
  }

  /** Conversely nothing shorter than 16 bytes is ever found, and nothing at all for a
      file of at most 16 bytes. */
  lemma ShortestMatch(s: Store, content: seq<byte>, io: nat -> bool)
    requires StoreOk(s)
    ensures |content| <= 16 ==> Find(s, content, io).size == 0
    ensures Find(s, content, io).size > 0 ==> Find(s, content, io).size >= 16
  {
    hide MatchLen, Crc;
    if |content| > HASHLEN {
      ScanAtLeast(s.packed, Slot(s.table, Hash(TofCrc(content))), content, io, Found(0, 0));
    }
  }

  lemma {:induction false} ScanAtLeast(packed: seq<byte>, items: seq<Item>, content: seq<byte>, io: nat -> bool, best: Found)
    requires ItemsOk(packed, items) && (best.len > 0 ==> best.len >= HASHLEN)
    ensures Scan(packed, items, content, io, best).len > 0 ==> Scan(packed, items, content, io, best).len >= HASHLEN
    decreases items
  {
    hide MatchLen;
    if items != [] {
      var i := MatchLen(packed, items[0], content, io);
      NoShortMatch(packed, items[0], content, io);
      if i <= best.len {
        ScanAtLeast(packed, items[1..], content, io, best);
      } else if i < |content| {
        ScanAtLeast(packed, items[1..], content, io, Found(i, EndOf(items[0])));
      }
    }
  }

  lemma NoShortMatch(packed: seq<byte>, item: Item, content: seq<byte>, io: nat -> bool)
    requires ItemOk(packed, item)
    ensures MatchLen(packed, item, content, io) > 0 ==> MatchLen(packed, item, content, io) >= HASHLEN
  {
    hide CommonSuffix, Lcs, Extend;
    MemMatchBound(item, content);
    var t := Tail(content, InMemory(content));
    if |item.data| > HASHLEN && CommonSuffix(item.data, content, HASHLEN) {
      SuffixFits(item.data, content, HASHLEN);
      LoadedSuffix(item.data, content, HASHLEN);
      LcsIsLongest(item.data, t, HASHLEN);
    }
  }

  // ------------------------------------------------------ what a step does

  /** The step for a file that is deduplicated. In whole-inode mode a match counts only
      if it covers the file; otherwise any match is the reference. Only a file without
      a reference is packed, and only if all files are. */
  lemma BeginDeduped(s: Store, f: File)
    requires StoreOk(s) && f.fragments && !f.packedInode && f.mode != Off
    ensures var (t, r), found := Begin(s, f), Find(s, f.content, f.io);
      && found.size <= |f.content|
      && t.tof == (if |f.content| > 16 then TofCrc(f.content) else s.tof)
      && (f.mode == WholeInode ==>
            && (r.size == 0 || r.size == |f.content|)
            && (found.size == |f.content| > 0 ==> r == found && t.packed == s.packed && t.table == s.table)
            && (found.size < |f.content| ==>
                  if f.allFragments then t.packed == s.packed + f.content && r == Ref(|s.packed|, |f.content|)
                  else t.packed == s.packed && t.table == s.table && r.size == 0))
      && (f.mode == Full ==>
            && (found.size > 0 ==> r == found && t.packed == s.packed && t.table == s.table)
            && (found.size == 0 ==>
                  if f.allFragments then t.packed == s.packed + f.content && r == Ref(|s.packed|, |f.content|)
                  else t.packed == s.packed && t.table == s.table && r.size == 0))
  {
    hide Find, Insert, Crc;
    FindDecodes(s, f.content, f.io);
  }

  /** The step for any other file: it is packed if all files are, unless it is the
      packed file itself. The kept checksum stays as it was. */
  lemma BeginPlain(s: Store, f: File)
    requires StoreOk(s) && (!f.fragments || f.packedInode || f.mode == Off)
    ensures var (t, r) := Begin(s, f);
      && t.tof == s.tof
      && if f.allFragments && !f.packedInode then t.packed == s.packed + f.content && r == Ref(|s.packed|, |f.content|)
         else t == s && r.size == 0
  {
  }

  /** What is remembered of a packed file: its last 256 KiB, at their place, behind
      everything else in the slot; nothing of files of at most 16 bytes, nor of files
      that could not be mapped into memory. */
  lemma PackRemembers(s: Store, content: seq<byte>, mapped: bool)
    ensures var t, k := Pack(s, content, mapped), s.tof % 65536;
      && t.packed == s.packed + content && t.tof == s.tof
      && (!mapped || |content| <= 16 ==> t.table == s.table)
      && (mapped && |content| > 16 ==>
            var n := if |content| < 262144 then |content| else 262144;
            t.table == s.table[k := Slot(s.table, k) + [Item(|s.packed| + |content| - n, content[|content| - n..])]])
  {
  }

  /** Beginning a file of more than 16 bytes again, after it was packed and remembered
      and whatever came in between, refers to all of it and appends nothing. */
  lemma BeginAgain(s: Store, f: File, files: seq<File>, g: File)
    requires StoreOk(s) && f.fragments && f.mode != Off && f.mapped && |f.content| > 16
    requires |Begin(s, f).0.packed| > |s.packed|
    requires g.content == f.content && g.fragments && !g.packedInode && g.mode != Off && forall j :: g.io(j)
    ensures StoreOk(Begin(s, f).0) && StoreOk(Run(Begin(s, f).0, files).0)
    ensures var u := Run(Begin(s, f).0, files).0;
      var (t, r) := Begin(u, g);
      r.size == |g.content| && t.packed == u.packed && t.table == u.table
  {
    hide Run, Find, Insert, Crc, Begin;
    WasPacked(s, f);
    PackedFileIsFound(s, f, files, g.io);
    BeginDeduped(Run(Begin(s, f).0, files).0, g);
  }

  lemma WasPacked(s: Store, f: File)
    requires StoreOk(s) && f.fragments && f.mode != Off && |Begin(s, f).0.packed| > |s.packed|
    ensures Dedupes(f) && Packs(s, f)
  {
    hide Deduped;
  }

  /** A file that shares at least its last 16 bytes with one that was packed and
      remembered finds at least as much of them as is kept in memory. */
  lemma SharedTailIsFound(s: Store, f: File, files: seq<File>, content: seq<byte>, io: nat -> bool, n: nat)
    requires StoreOk(s) && f.fragments && f.mode != Off && f.mapped && |f.content| > 16 && |content| > 16
    requires |Begin(s, f).0.packed| > |s.packed|
    requires 16 <= n <= 262144 && n <= |f.content| && n <= |content|
    requires f.content[|f.content| - n..] == content[|content| - n..]
    ensures StoreOk(Begin(s, f).0) && StoreOk(Run(Begin(s, f).0, files).0)
    ensures Find(Run(Begin(s, f).0, files).0, content, io).size >= n
  {
    hide Run, MatchLen, Crc, Begin, Dedupes, Packs, CommonSuffix, Find, StoreOk;
    WasPacked(s, f);
    OwnItemStays(s, f, files);
    SameHash(f.content, content, n);
    KeptSuffix(f.content, content, n);
    var u, i := Run(Begin(s, f).0, files).0, |Slot(s.table, Hash(TofCrc(content)))|;
    MatchAtLeast(u.packed, OwnItem(s, f.content), content, io, n);
    FindsCandidate(u, content, io, i);
  }

  lemma SameHash(a: seq<byte>, b: seq<byte>, n: nat)
    requires |a| > 16 && |b| > 16 && 16 <= n <= |a| && n <= |b| && a[|a| - n..] == b[|b| - n..]
    ensures TofCrc(a) == TofCrc(b)
  {
    TailOfTail(a, n, HASHLEN);
    TailOfTail(b, n, HASHLEN);
  }

  lemma KeptSuffix(a: seq<byte>, b: seq<byte>, n: nat)
    requires n <= |a| && n <= |b| && n <= INMEM_MAX && a[|a| - n..] == b[|b| - n..]
    ensures CommonSuffix(Tail(a, Min(|a|, INMEM_MAX)), b, n)
  {
    TailOfTail(a, Min(|a|, INMEM_MAX), n);
  }
}
