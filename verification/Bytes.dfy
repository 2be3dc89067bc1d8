// Byte sequences: the in-place copy (memcpy, memset) and the little-endian words that
// both the simulated physical memory and the file system's disk blocks are made of.
module Bytes {
  type Byte = x: int | 0 <= x < 256

  const WORD_LIMIT: nat := 0x1_0000_0000

  // The contents of m after bs has been copied to offset a.
  function Overlay(m: seq<Byte>, a: nat, bs: seq<Byte>): (r: seq<Byte>)
    requires a + |bs| <= |m|
    ensures |r| == |m|
    ensures forall i :: 0 <= i < |m| ==> r[i] == if a <= i < a + |bs| then bs[i - a] else m[i]
  {
    m[..a] + bs + m[a + |bs|..]
  }

  function Zeros(n: nat): (r: seq<Byte>)
    ensures |r| == n
    ensures forall i :: 0 <= i < n ==> r[i] == 0
  {
    seq(n, _ => 0)
  }

  // The 32-bit word stored at byte offset a.
  function Word(m: seq<Byte>, a: nat): (w: nat)
    requires a + 4 <= |m|
    ensures w < WORD_LIMIT
  {
    var b0: int, b1: int, b2: int, b3: int := m[a], m[a + 1], m[a + 2], m[a + 3];
    b0 + 0x100 * b1 + 0x1_0000 * b2 + 0x100_0000 * b3
  }

  function WordBytes(w: nat): (r: seq<Byte>)
    requires w < WORD_LIMIT
    ensures |r| == 4
  {
    var w1 := w / 0x100;
    var w2 := w1 / 0x100;
    [w % 0x100, w1 % 0x100, w2 % 0x100, w2 / 0x100]
  }

  // A word depends on its own four bytes only.
  lemma WordOfEqualBytes(m: seq<Byte>, m': seq<Byte>, a: nat)
    requires a + 4 <= |m| && a + 4 <= |m'|
    requires forall i :: a <= i < a + 4 ==> m[i] == m'[i]
    ensures Word(m, a) == Word(m', a)
  {
    assert m[a] == m'[a] && m[a + 1] == m'[a + 1] && m[a + 2] == m'[a + 2] && m[a + 3] == m'[a + 3];
  }

  lemma WordOfWordBytes(w: nat)
    requires w < WORD_LIMIT
    ensures Word(WordBytes(w), 0) == w
  {
  }

  // A stored word reads back, and words that do not overlap it keep their value.
  lemma WordAfterStore(m: seq<Byte>, a: nat, w: nat)
    requires a + 4 <= |m| && w < WORD_LIMIT
    ensures var m' := Overlay(m, a, WordBytes(w));
            && Word(m', a) == w
            && forall b: nat :: b + 4 <= |m| && (b + 4 <= a || a + 4 <= b) ==> Word(m', b) == Word(m, b)
  {
    var bs := WordBytes(w);
    var m' := Overlay(m, a, bs);
    assert m'[a] == bs[0] && m'[a + 1] == bs[1] && m'[a + 2] == bs[2] && m'[a + 3] == bs[3];
    WordOfWordBytes(w);
    forall b: nat | b + 4 <= |m| && (b + 4 <= a || a + 4 <= b)
      ensures Word(m', b) == Word(m, b)
    {
      WordOfEqualBytes(m, m', b);
    }
  }

  // memcpy / memset into an array.
  method CopyInto(dst: array<Byte>, a: nat, bs: seq<Byte>)
    requires a + |bs| <= dst.Length
    modifies dst
    ensures dst[..] == Overlay(old(dst[..]), a, bs)
  {
    var was := dst[..];
    for k := 0 to |bs|
      invariant dst[..] == Overlay(was, a, bs[..k])
    {
      dst[a + k] := bs[k];
    }
    assert bs[..|bs|] == bs;
  }
}
