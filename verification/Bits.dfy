/** The bits of a byte, most significant first, as packed rows number their pixels. */
module Bits {
  import opened Bytes

  /** Bit `n` of a number, least significant first. */
  predicate Bit(b: nat, n: nat) {
    if n == 0 then b % 2 == 1 else Bit(b / 2, n - 1)
  }

  /** `b | (1 << n)` */
  function SetBit(b: nat, n: nat): nat {
    if n == 0 then b / 2 * 2 + 1 else 2 * SetBit(b / 2, n - 1) + b % 2
  }

  function Pow2(n: nat): (p: nat)
    ensures p >= 1
  {
    if n == 0 then 1 else 2 * Pow2(n - 1)
  }

  lemma {:induction false} SetBitSetsOne(b: nat, n: nat, m: nat)
    ensures Bit(SetBit(b, n), m) <==> m == n || Bit(b, m)
  {
    if n > 0 {
      assert SetBit(b, n) / 2 == SetBit(b / 2, n - 1) && SetBit(b, n) % 2 == b % 2;
      if m > 0 {
        SetBitSetsOne(b / 2, n - 1, m - 1);
      }
    }
  }

  lemma Pow2Twice(n: nat)
    ensures Pow2(n + 1) == 2 * Pow2(n)
  {
  }

  lemma SetBitOnce(b: nat, n: nat)
    ensures SetBit(b, n) == if n == 0 then b / 2 * 2 + 1 else 2 * SetBit(b / 2, n - 1) + b % 2
  {
  }

  lemma {:induction false} SetBitFits(b: nat, n: nat, width: nat)
    requires n < width && b < Pow2(width)
    ensures SetBit(b, n) < Pow2(width)
  {
    hide Pow2, SetBit;
    Pow2Twice(width - 1);
    SetBitOnce(b, n);
    if n > 0 {
      SetBitFits(b / 2, n - 1, width - 1);
    }
  }

  lemma {:induction false} NoBits(n: nat)
    ensures !Bit(0, n)
  {
    if n > 0 {
      NoBits(n - 1);
    }
  }

  /** Numbers of the same bits are the same number. */
  lemma {:induction false} BitsDetermine(a: nat, b: nat, width: nat)
    requires a < Pow2(width) && b < Pow2(width)
    requires forall n :: 0 <= n < width ==> (Bit(a, n) <==> Bit(b, n))
    ensures a == b
  {
    if width > 0 {
      assert Bit(a, 0) <==> Bit(b, 0);
      forall n | 0 <= n < width - 1
        ensures Bit(a / 2, n) <==> Bit(b / 2, n)
      {
        assert Bit(a, n + 1) <==> Bit(b, n + 1);
      }
      BitsDetermine(a / 2, b / 2, width - 1);
    }
  }

  lemma Pow2Of8()
    ensures Pow2(8) == 0x100
  {
    assert Pow2(6) == 64;
  }

  // ---- packed rows

  /** Is pixel `x` of a packed row black? Pixel 0 is the top bit of byte 0. */
  predicate Pixel(bits: seq<Byte>, x: nat)
    requires x < 8 * |bits|
  {
    Bit(bits[x / 8], 7 - x % 8)
  }

  /** `bits[x >> 3] |= 0x80 >> (x & 7)` */
  method SetBlack(bits: array<Byte>, x: nat)
    requires x < 8 * bits.Length
    modifies bits
    ensures forall z: nat :: z < 8 * bits.Length ==> (Pixel(bits[..], z) <==> z == x || Pixel(old(bits[..]), z))
    ensures forall j :: 0 <= j < bits.Length && j != x / 8 ==> bits[j] == old(bits[j])
  {
    var b: nat := bits[x / 8];
    Pow2Of8();
    SetBitFits(b, 7 - x % 8, 8);
    bits[x / 8] := SetBit(b, 7 - x % 8);
    forall z: nat | z < 8 * bits.Length
      ensures Pixel(bits[..], z) <==> z == x || Pixel(old(bits[..]), z)
    {
      SetBitSetsOne(b, 7 - x % 8, 7 - z % 8);
    }
  }
}
