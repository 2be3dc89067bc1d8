// Bitmaps packed eight bits to a byte, as both the memory simulator
// (get_bit / set_bit / clear_bit) and the file system (get_bitmap / set_bitmap) keep them.
module Bitmaps {
  import opened Bytes

  // ----- the bit operators of C on n-bit values -----

  function Pow2(n: nat): (p: nat)
    ensures p > 0
  {
    if n == 0 then 1 else 2 * Pow2(n - 1)
  }

  predicate Bit(x: nat, k: nat)
    decreases k
  {
    if k == 0 then x % 2 == 1 else Bit(x / 2, k - 1)
  }

  // x | y
  function Or(x: nat, y: nat, n: nat): (r: nat)
    requires x < Pow2(n) && y < Pow2(n)
    ensures r < Pow2(n)
    decreases n
  {
    if n == 0 then 0
    else 2 * Or(x / 2, y / 2, n - 1) + if x % 2 == 1 || y % 2 == 1 then 1 else 0
  }

  // x & ~y
  function AndNot(x: nat, y: nat, n: nat): (r: nat)
    requires x < Pow2(n) && y < Pow2(n)
    ensures r < Pow2(n)
    decreases n
  {
    if n == 0 then 0
    else 2 * AndNot(x / 2, y / 2, n - 1) + if x % 2 == 1 && y % 2 == 0 then 1 else 0
  }

  // The lowest bit and the rest of a number put together from them.
  lemma LowBit(h: nat, low: nat)
    requires low < 2
    ensures (2 * h + low) / 2 == h && (2 * h + low) % 2 == low
  {
  }

  lemma {:induction false} BitOfOr(x: nat, y: nat, n: nat, k: nat)
    requires x < Pow2(n) && y < Pow2(n) && k < n
    ensures Bit(Or(x, y, n), k) == (Bit(x, k) || Bit(y, k))
    decreases n
  {
    var h := Or(x / 2, y / 2, n - 1);
    var low := if x % 2 == 1 || y % 2 == 1 then 1 else 0;
    assert Or(x, y, n) == 2 * h + low;
    if k > 0 {
      BitOfOr(x / 2, y / 2, n - 1, k - 1);
    }
    hide Pow2, Or;
    LowBit(h, low);
  }

  lemma {:induction false} BitOfAndNot(x: nat, y: nat, n: nat, k: nat)
    requires x < Pow2(n) && y < Pow2(n) && k < n
    ensures Bit(AndNot(x, y, n), k) == (Bit(x, k) && !Bit(y, k))
    decreases n
  {
    var h := AndNot(x / 2, y / 2, n - 1);
    var low := if x % 2 == 1 && y % 2 == 0 then 1 else 0;
    assert AndNot(x, y, n) == 2 * h + low;
    if k > 0 {
      BitOfAndNot(x / 2, y / 2, n - 1, k - 1);
    }
    hide Pow2, AndNot;
    LowBit(h, low);
  }

  // 1 << k has the one bit k.
  lemma {:induction false} BitOfPow2(k: nat, j: nat)
    ensures Bit(Pow2(k), j) == (j == k)
    decreases k
  {
    if k == 0 {
      BitOfZero(j);
    } else if j > 0 {
      BitOfPow2(k - 1, j - 1);
    }
  }

  lemma {:induction false} BitOfZero(j: nat)
    ensures !Bit(0, j)
    ensures j > 0 ==> !Bit(1, j)
    decreases j
  {
    if j > 0 {
      BitOfZero(j - 1);
    }
  }

  // Or with a single bit adds it unless it is there.
  lemma {:induction false} OrOfBit(k: nat, y: nat, n: nat)
    requires k < n && Pow2(k) < Pow2(n) && y < Pow2(n)
    ensures Or(Pow2(k), y, n) == if Bit(y, k) then y else y + Pow2(k)
    decreases n
  {
    if k == 0 {
      OrOfZero(y / 2, n - 1);
    } else {
      LowBit(Pow2(k - 1), 0);
      OrOfBit(k - 1, y / 2, n - 1);
    }
  }

  lemma {:induction false} OrOfZero(y: nat, n: nat)
    requires y < Pow2(n)
    ensures Or(0, y, n) == y
    decreases n
  {
    if n > 0 {
      OrOfZero(y / 2, n - 1);
    }
  }

  lemma FourBitsOn(x: nat, k: nat)
    ensures Bit(x, k + 4) == Bit(x / 16, k)
  {
    assert Bit(x, k + 4) == Bit(x / 2, k + 3);
    assert Bit(x / 2, k + 3) == Bit(x / 4, k + 2);
    assert Bit(x / 4, k + 2) == Bit(x / 8, k + 1);
  }

  lemma ByteWidth(k: nat)
    requires k < 8
    ensures Pow2(8) == 256 && Pow2(k) < 256
  {
    assert Pow2(4) == 16;
    assert Pow2(7) == 128;
  }

  // The bits of a number and of the one stacked above it.
  lemma {:induction false} BitOfSum(b: nat, y: nat, n: nat, k: nat)
    requires b < Pow2(n)
    ensures Bit(b + Pow2(n) * y, k) == if k < n then Bit(b, k) else Bit(y, k - n)
    decreases n
  {
    if n > 0 {
      var p := Pow2(n - 1) * y;
      assert Pow2(n) * y == 2 * p;
      assert (b + 2 * p) / 2 == b / 2 + p && (b + 2 * p) % 2 == b % 2;
      if k > 0 {
        BitOfSum(b / 2, y, n - 1, k - 1);
      }
    }
  }

  // Words lie in memory lowest byte first.
  lemma WordBit(m: seq<Byte>, a: nat, k: nat)
    requires a + 4 <= |m| && k < 32
    ensures Bit(Word(m, a), k) == Bit(m[a + k / 8], k % 8)
  {
    hide Bit, Pow2;
    ByteWidth(0);
    var b0: nat, b1: nat, b2: nat, b3: nat := m[a], m[a + 1], m[a + 2], m[a + 3];
    BitOfSum(b0, b1 + 0x100 * (b2 + 0x100 * b3), 8, k);
    if k >= 8 {
      BitOfSum(b1, b2 + 0x100 * b3, 8, k - 8);
    }
    if k >= 16 {
      BitOfSum(b2, b3, 8, k - 16);
    }
  }

  function WithBit(b: Byte, k: nat): Byte
    requires k < 8
  {
    ByteWidth(k);
    Or(b, Pow2(k), 8)
  }

  function WithoutBit(b: Byte, k: nat): Byte
    requires k < 8
  {
    ByteWidth(k);
    AndNot(b, Pow2(k), 8)
  }

  // ----- bitmaps -----

  // The bitmap as one boolean per index.
  function Bits(bytes: seq<Byte>): (r: seq<bool>)
    ensures |r| == 8 * |bytes|
  {
    seq(8 * |bytes|, i requires 0 <= i < 8 * |bytes| => Bit(bytes[i / 8], i % 8))
  }

  // Replacing the byte that holds bit i by one that differs in that bit alone.
  lemma BitsAfterByteStore(bytes: seq<Byte>, i: nat, b: Byte, v: bool)
    requires i < 8 * |bytes|
    requires forall k :: 0 <= k < 8 ==> Bit(b, k) == if k == i % 8 then v else Bit(bytes[i / 8], k)
    ensures Bits(bytes[i / 8 := b]) == Bits(bytes)[i := v]
  {
    hide Bit;
    var r := Bits(bytes[i / 8 := b]);
    forall j | 0 <= j < |r|
      ensures r[j] == Bits(bytes)[i := v][j]
    {
      assert j % 8 == i % 8 && j / 8 == i / 8 ==> j == i;
    }
  }

  // Setting a bit changes that bit and no other, in particular none of the seven others of its byte.
  lemma BitsAfterSet(bytes: seq<Byte>, i: nat)
    requires i < 8 * |bytes|
    ensures Bits(bytes[i / 8 := WithBit(bytes[i / 8], i % 8)]) == Bits(bytes)[i := true]
  {
    var b := bytes[i / 8];
    ByteWidth(i % 8);
    forall k | 0 <= k < 8
      ensures Bit(WithBit(b, i % 8), k) == if k == i % 8 then true else Bit(b, k)
    {
      BitOfOr(b, Pow2(i % 8), 8, k);
      BitOfPow2(i % 8, k);
    }
    hide Bit, Or;
    BitsAfterByteStore(bytes, i, WithBit(b, i % 8), true);
  }

  lemma BitsAfterClear(bytes: seq<Byte>, i: nat)
    requires i < 8 * |bytes|
    ensures Bits(bytes[i / 8 := WithoutBit(bytes[i / 8], i % 8)]) == Bits(bytes)[i := false]
  {
    var b := bytes[i / 8];
    ByteWidth(i % 8);
    forall k | 0 <= k < 8
      ensures Bit(WithoutBit(b, i % 8), k) == if k == i % 8 then false else Bit(b, k)
    {
      BitOfAndNot(b, Pow2(i % 8), 8, k);
      BitOfPow2(i % 8, k);
    }
    hide Bit, AndNot;
    BitsAfterByteStore(bytes, i, WithoutBit(b, i % 8), false);
  }

  // calloc and memset leave every bit clear.
  lemma ZeroBits(bytes: seq<Byte>)
    requires forall i :: 0 <= i < |bytes| ==> bytes[i] == 0
    ensures forall i :: 0 <= i < |Bits(bytes)| ==> !Bits(bytes)[i]
  {
    forall i | 0 <= i < |Bits(bytes)|
      ensures !Bits(bytes)[i]
    {
      BitOfZero(i % 8);
    }
  }

  // The lowest clear bit at or after i; |bits| when there is none.
  function FirstClear(bits: seq<bool>, i: nat): (f: nat)
    requires i <= |bits|
    ensures i <= f <= |bits|
    ensures forall j :: i <= j < f ==> bits[j]
    ensures f < |bits| ==> !bits[f]
    decreases |bits| - i
  {
    if i < |bits| && bits[i] then FirstClear(bits, i + 1) else i
  }

  method GetBit(bitmap: array<Byte>, i: nat) returns (bit: bool)
    requires i < 8 * bitmap.Length
    ensures bit == Bits(bitmap[..])[i]
  {
    bit := Bit(bitmap[i / 8], i % 8);
  }

  method SetBit(bitmap: array<Byte>, i: nat)
    requires i < 8 * bitmap.Length
    modifies bitmap
    ensures Bits(bitmap[..]) == old(Bits(bitmap[..]))[i := true]
  {
    hide Bits;
    BitsAfterSet(bitmap[..], i);
    ghost var was := bitmap[..];
    bitmap[i / 8] := WithBit(bitmap[i / 8], i % 8);
    assert bitmap[..] == was[i / 8 := WithBit(was[i / 8], i % 8)];
  }

  method ClearBit(bitmap: array<Byte>, i: nat)
    requires i < 8 * bitmap.Length
    modifies bitmap
    ensures Bits(bitmap[..]) == old(Bits(bitmap[..]))[i := false]
  {
    hide Bits;
    BitsAfterClear(bitmap[..], i);
    ghost var was := bitmap[..];
    bitmap[i / 8] := WithoutBit(bitmap[i / 8], i % 8);
    assert bitmap[..] == was[i / 8 := WithoutBit(was[i / 8], i % 8)];
  }
}
