/** Bytes, bits and the little-endian integer encodings the on-disk format uses. */
module Bytes {

  /** An unsigned 8-bit value (C `u_char`/`char` storage). */
  newtype byte = x: int | 0 <= x < 256

  const U16_LIMIT: nat := 0x1_0000
  const U32_LIMIT: nat := 0x1_0000_0000

  /** C `uint`. */
  type u32 = x: int | 0 <= x < U32_LIMIT
  /** C `short`. */
  type i16 = x: int | -0x8000 <= x < 0x8000

  function Pow2(k: nat): (p: nat)
    ensures p >= 1
  {
    if k == 0 then 1 else 2 * Pow2(k - 1)
  }

  /** Bit k of x, i.e. `(x & (1 << k)) != 0` in C. */
  predicate Bit(x: nat, k: nat)
  {
    if k == 0 then x % 2 == 1 else Bit(x / 2, k - 1)
  }

  /** Setting a clear bit adds its weight and leaves every other bit alone. */
  lemma {:induction false} AddBit(x: nat, k: nat, j: nat)
    requires !Bit(x, k)
    ensures Bit(x + Pow2(k), j) == (j == k || Bit(x, j))
  {
    if k == 0 {
      if j > 0 {
        assert (x + 1) / 2 == x / 2;
      }
    } else {
      assert x + Pow2(k) == x + 2 * Pow2(k - 1);
      if j > 0 {
        assert (x + Pow2(k)) / 2 == x / 2 + Pow2(k - 1);
        AddBit(x / 2, k - 1, j - 1);
      }
    }
  }

  /** A set bit contributes its weight. */
  lemma {:induction false} BitWeight(x: nat, k: nat)
    requires Bit(x, k)
    ensures x >= Pow2(k) && !Bit(x - Pow2(k), k)
  {
    if k > 0 {
      BitWeight(x / 2, k - 1);
      assert (x - Pow2(k)) / 2 == x / 2 - Pow2(k - 1);
    }
  }

  /** Below 2^n, a clear bit k < n can be added without reaching 2^n. */
  lemma {:induction false} AddBitBound(x: nat, k: nat, n: nat)
    requires k < n && x < Pow2(n) && !Bit(x, k)
    ensures x + Pow2(k) < Pow2(n)
  {
    assert Pow2(n) == 2 * Pow2(n - 1);
    if k == 0 {
      assert x % 2 == 0;
    } else {
      assert x / 2 < Pow2(n - 1);
      AddBitBound(x / 2, k - 1, n - 1);
      assert Pow2(k) == 2 * Pow2(k - 1);
    }
  }

  /** No bit at or above n is set in a value below 2^n. */
  lemma {:induction false} HighBitsClear(x: nat, n: nat, j: nat)
    requires x < Pow2(n) && j >= n
    ensures !Bit(x, j)
  {
    if n == 0 {
      assert x == 0;
      if j > 0 { HighBitsClear(0, 0, j - 1); }
    } else if j > 0 {
      HighBitsClear(x / 2, n - 1, j - 1);
    }
  }

  /** Bit k of a byte. */
  predicate ByteBit(x: byte, k: nat)
  {
    Bit(x as nat, k)
  }

  /** `x | (1 << k)` on a byte. */
  function SetBit(x: byte, k: nat): (r: byte)
    requires k < 8
    ensures forall j: nat :: ByteBit(r, j) == (j == k || ByteBit(x, j))
  {
    if Bit(x as nat, k) then x
    else
      AddBitBound(x as nat, k, 8);
      assert Pow2(8) == 256;
      var y := x as nat + Pow2(k);
      forall j: nat ensures Bit(y, j) == (j == k || ByteBit(x, j)) {
        AddBit(x as nat, k, j);
      }
      y as byte
  }

  /** `x & ~(1 << k)` on a byte. */
  function ClearBit(x: byte, k: nat): (r: byte)
    requires k < 8
    ensures forall j: nat :: ByteBit(r, j) == (j != k && ByteBit(x, j))
  {
    if !Bit(x as nat, k) then x
    else
      BitWeight(x as nat, k);
      var y := x as nat - Pow2(k);
      forall j: nat ensures Bit(y + Pow2(k), j) == (j == k || Bit(y, j)) {
        AddBit(y, k, j);
      }
      y as byte
  }

  /** Two bytes with the same eight bits are equal. */
  lemma {:induction false} BitsDetermine(x: nat, y: nat, n: nat)
    requires x < Pow2(n) && y < Pow2(n)
    requires forall j :: 0 <= j < n ==> Bit(x, j) == Bit(y, j)
    ensures x == y
  {
    if n > 0 {
      assert Bit(x, 0) == Bit(y, 0);
      forall j | 0 <= j < n - 1 ensures Bit(x / 2, j) == Bit(y / 2, j) {
        assert Bit(x, j + 1) == Bit(y, j + 1);
      }
      BitsDetermine(x / 2, y / 2, n - 1);
    }
  }

  /** Clearing a bit that was just set gives the byte back. */
  lemma ClearAfterSet(x: byte, k: nat)
    requires k < 8 && !ByteBit(x, k)
    ensures ClearBit(SetBit(x, k), k) == x
  {
    var r := ClearBit(SetBit(x, k), k);
    assert Pow2(8) == 256;
    assert forall j: nat | 0 <= j < 8 :: ByteBit(r, j) == ByteBit(x, j);
    BitsDetermine(r as nat, x as nat, 8);
  }

  /** `(1 << n) - 1`: the low n bits set. */
  function LowMask(n: nat): (m: nat)
    ensures m < Pow2(n)
    ensures forall j: nat :: Bit(m, j) == (j < n)
  {
    if n == 0 then
      assert forall j: nat :: !Bit(0, j) by {
        forall j: nat ensures !Bit(0, j) { HighBitsClear(0, 0, j); }
      }
      0
    else
      var m := LowMask(n - 1);
      assert !Bit(m, n - 1) by { HighBitsClear(m, n - 1, n - 1); }
      var t := m + Pow2(n - 1);
      forall j: nat ensures Bit(t, j) == (j < n) {
        AddBit(m, n - 1, j);
      }
      t
  }

  /** Little-endian bytes of a 16-bit two's-complement value (C `short`). */
  function I16Bytes(v: i16): (s: seq<byte>)
    ensures |s| == 2
  {
    var u := if v < 0 then v + U16_LIMIT else v;
    [(u % 0x100) as byte, (u / 0x100) as byte]
  }

  function I16Of(s: seq<byte>): (v: i16)
    requires |s| == 2
  {
    var u := s[0] as int + 0x100 * s[1] as int;
    if u >= 0x8000 then u - U16_LIMIT else u
  }

  lemma I16RoundTrip(v: i16)
    ensures I16Of(I16Bytes(v)) == v
  {}

  /** Little-endian bytes of an unsigned 16-bit value (C `ushort`). */
  function U16Bytes(v: nat): (s: seq<byte>)
    requires v < U16_LIMIT
    ensures |s| == 2
  {
    [(v % 0x100) as byte, (v / 0x100) as byte]
  }

  function U16Of(s: seq<byte>): (v: nat)
    requires |s| == 2
    ensures v < U16_LIMIT
  {
    s[0] as nat + 0x100 * s[1] as nat
  }

  /** Little-endian bytes of a C `uint`. */
  function U32Bytes(v: u32): (s: seq<byte>)
    ensures |s| == 4
  {
    [(v % 0x100) as byte, (v / 0x100 % 0x100) as byte,
     (v / 0x1_0000 % 0x100) as byte, (v / 0x100_0000) as byte]
  }

  function U32Of(s: seq<byte>): (v: u32)
    requires |s| == 4
  {
    s[0] as nat + 0x100 * s[1] as nat + 0x1_0000 * s[2] as nat + 0x100_0000 * s[3] as nat
  }

  lemma U16RoundTrip(v: nat)
    requires v < U16_LIMIT
    ensures U16Of(U16Bytes(v)) == v
  {}

  lemma U32RoundTrip(v: u32)
    ensures U32Of(U32Bytes(v)) == v
  {}

  /** A run of n copies of one byte (`memset`). */
  function Fill(n: nat, b: byte): (s: seq<byte>)
    ensures |s| == n && forall i :: 0 <= i < n ==> s[i] == b
  {
    seq(n, _ => b)
  }
}
