/** Little-endian numbers, as encoding/binary reads and writes them. */
module LittleEndian {
  import opened Objects

  /** 256 to the power of `n`. */
  function Span(n: nat): nat { if n == 0 then 1 else 256 * Span(n - 1) }

  function Put(n: nat, v: nat): (r: seq<byte>)
    ensures |r| == n
  {
    if n == 0 then [] else [v % 256] + Put(n - 1, v / 256)
  }

  function Get(s: seq<byte>): nat {
    if s == [] then 0 else s[0] + 256 * Get(s[1..])
  }

  lemma {:induction false} GetPut(n: nat, v: nat)
    requires v < Span(n)
    ensures Get(Put(n, v)) == v
  {
    if n > 0 {
      GetPut(n - 1, v / 256);
      assert Put(n, v)[1..] == Put(n - 1, v / 256);
    }
  }

  lemma {:induction false} PutGet(s: seq<byte>)
    ensures Put(|s|, Get(s)) == s
    ensures Get(s) < Span(|s|)
  {
    if s != [] {
      PutGet(s[1..]);
      assert Get(s) / 256 == Get(s[1..]) && Get(s) % 256 == s[0];
      assert s == [s[0]] + s[1..];
    }
  }

  lemma Spans()
    ensures Span(2) == 0x1_0000 && Span(4) == 0x1_0000_0000 && Span(8) == 0x1_0000_0000_0000_0000
  {
    assert Span(2) == 0x1_0000;
    assert Span(4) == 0x1_0000_0000;
    assert Span(6) == 0x1_0000_0000_0000;
  }

  /** The bytes one by one, as shifts and truncations produce them. */
  lemma PutTwo(v: nat)
    ensures Put(2, v) == [v % 256, v / 256 % 256]
  {
    assert Put(1, v / 256) == [v / 256 % 256] + Put(0, v / 256 / 256);
  }

  lemma PutFour(v: nat)
    ensures Put(4, v) == [v % 256, v / 0x100 % 256, v / 0x1_0000 % 256, v / 0x100_0000 % 256]
  {
    PutTwo(v);
    PutTwo(v / 256 / 256);
    assert Put(4, v) == [v % 256] + ([v / 256 % 256] + Put(2, v / 256 / 256)) by {
      assert Put(3, v / 256) == [v / 256 % 256] + Put(2, v / 256 / 256);
    }
  }

  lemma DivConst(v: nat)
    ensures v / 256 / 256 == v / 0x1_0000
    ensures v / 0x1_0000 / 0x1_0000 == v / 0x1_0000_0000
  {
  }

  lemma PutEight(v: nat)
    ensures Put(8, v) == Put(4, v) + Put(4, v / 0x1_0000_0000)
  {
    DivConst(v);
    DivConst(v / 256 / 256);
    PutSplit(6, v);
    PutSplit(4, v / 256 / 256);
    PutSplit(2, v);
  }

  /** `Put` with the first two bytes split off. */
  lemma PutSplit(n: nat, v: nat)
    ensures Put(n + 2, v) == Put(2, v) + Put(n, v / 256 / 256)
  {
    PutTwo(v);
    assert Put(n + 1, v / 256) == [v / 256 % 256] + Put(n, v / 256 / 256);
    assert Put(n + 2, v) == [v % 256] + Put(n + 1, v / 256);
  }
}
