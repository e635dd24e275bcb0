/**
  Fixed-width unsigned words as natural numbers. Shifts, truncation and the
  bitwise operators are defined one bit at a time, and every operator has a
  lemma giving each bit of its result, so that code which packs and unpacks
  words can be verified bit by bit without non-linear arithmetic.

  Byte strings are read in two ways: as a stream of bits, least significant bit of each byte
  first, and as a big-endian number.
*/
module Words {
  type byte = x: int | 0 <= x < 256

  const TwoTo64 := 0x1_0000_0000_0000_0000

  /** Bit i of x, bit 0 being the least significant. */
  predicate Bit(x: nat, i: nat)
    decreases i, x
  {
    if i == 0 then x % 2 == 1 else Bit(x / 2, i - 1)
  }

  function Pow2(n: nat): (r: nat)
    ensures r >= 1
  {
    if n == 0 then 1 else 2 * Pow2(n - 1)
  }

  /** x << k, before any truncation to the word's width. */
  function Shl(x: nat, k: nat): nat
    decreases k, x
  {
    if k == 0 then x else 2 * Shl(x, k - 1)
  }

  /** x >> k. */
  function Shr(x: nat, k: nat): nat
    decreases k, x
  {
    if k == 0 then x else Shr(x / 2, k - 1)
  }

  /** The low n bits of x: conversion to an n-bit word, or masking with 2^n - 1. */
  function Trunc(x: nat, n: nat): nat
    decreases n, x
  {
    if n == 0 then 0 else x % 2 + 2 * Trunc(x / 2, n - 1)
  }

  function Or(x: nat, y: nat): nat
    decreases x + y
  {
    if x + y == 0 then 0 else
      (if x % 2 == 1 || y % 2 == 1 then 1 else 0) + 2 * Or(x / 2, y / 2)
  }

  function Xor(x: nat, y: nat): nat
    decreases x + y
  {
    if x + y == 0 then 0 else
      (if x % 2 != y % 2 then 1 else 0) + 2 * Xor(x / 2, y / 2)
  }

  // ----- what the operators do to each bit -----

  lemma {:induction false} BitOfZero(i: nat)
    ensures !Bit(0, i)
    decreases i
  {
    if i > 0 { BitOfZero(i - 1); }
  }

  lemma {:induction false} BitShr(x: nat, k: nat, i: nat)
    ensures Bit(Shr(x, k), i) == Bit(x, i + k)
    decreases k
  {
    if k > 0 { BitShr(x / 2, k - 1, i); }
  }

  lemma {:induction false} BitShl(x: nat, k: nat, i: nat)
    ensures Bit(Shl(x, k), i) == (i >= k && Bit(x, i - k))
    decreases k
  {
    if k > 0 && i > 0 {
      assert Shl(x, k) / 2 == Shl(x, k - 1);
      BitShl(x, k - 1, i - 1);
    }
  }

  lemma {:induction false} BitTrunc(x: nat, n: nat, i: nat)
    ensures Bit(Trunc(x, n), i) == (i < n && Bit(x, i))
    decreases n
  {
    if n == 0 {
      BitOfZero(i);
    } else if i > 0 {
      assert Trunc(x, n) / 2 == Trunc(x / 2, n - 1);
      BitTrunc(x / 2, n - 1, i - 1);
    }
  }

  lemma {:induction false} BitOr(x: nat, y: nat, i: nat)
    ensures Bit(Or(x, y), i) == (Bit(x, i) || Bit(y, i))
    decreases i
  {
    if x + y == 0 {
      BitOfZero(i);
    } else if i > 0 {
      assert Or(x, y) / 2 == Or(x / 2, y / 2);
      BitOr(x / 2, y / 2, i - 1);
    }
  }

  // ----- bounds and equality -----

  /** A word below 2^n has no bit set at n or above. */
  lemma {:induction false} BitBeyond(x: nat, n: nat, i: nat)
    requires x < Pow2(n) && n <= i
    ensures !Bit(x, i)
    decreases n
  {
    if n == 0 { BitOfZero(i); } else { BitBeyond(x / 2, n - 1, i - 1); }
  }

  lemma {:induction false} TruncBound(x: nat, n: nat)
    ensures Trunc(x, n) < Pow2(n)
    decreases n
  {
    if n > 0 { TruncBound(x / 2, n - 1); }
  }

  /** Two n-bit words with the same bits are equal. */
  lemma {:induction false} SameBits(x: nat, y: nat, n: nat)
    requires x < Pow2(n) && y < Pow2(n)
    requires forall i: nat | i < n :: Bit(x, i) == Bit(y, i)
    ensures x == y
    decreases n
  {
    if n > 0 {
      assert Bit(x, 0) == Bit(y, 0);
      forall i: nat | i < n - 1 ensures Bit(x / 2, i) == Bit(y / 2, i) {
        assert Bit(x, i + 1) == Bit(y, i + 1);
      }
      SameBits(x / 2, y / 2, n - 1);
    }
  }

  lemma {:induction false} TruncIdentity(x: nat, n: nat)
    requires x < Pow2(n)
    ensures Trunc(x, n) == x
    decreases n
  {
    if n > 0 { TruncIdentity(x / 2, n - 1); }
  }

  lemma {:induction false} ShrBound(x: nat, k: nat, n: nat)
    requires x < Pow2(n + k)
    ensures Shr(x, k) < Pow2(n)
    decreases k
  {
    if k > 0 { ShrBound(x / 2, k - 1, n); }
  }

  lemma {:induction false} ShlBound(x: nat, k: nat, n: nat)
    requires x < Pow2(n)
    ensures Shl(x, k) < Pow2(n + k)
    decreases k
  {
    if k > 0 { ShlBound(x, k - 1, n); }
  }

  lemma {:induction false} OrBound(x: nat, y: nat, n: nat)
    requires x < Pow2(n) && y < Pow2(n)
    ensures Or(x, y) < Pow2(n)
    decreases n
  {
    if x + y > 0 && n > 0 { OrBound(x / 2, y / 2, n - 1); }
  }

  lemma {:induction false} XorBound(x: nat, y: nat, n: nat)
    requires x < Pow2(n) && y < Pow2(n)
    ensures Xor(x, y) < Pow2(n)
    decreases n
  {
    if x + y > 0 && n > 0 { XorBound(x / 2, y / 2, n - 1); }
  }

  /** Applying the same mask twice restores the value. */
  lemma {:induction false} XorInvolutive(x: nat, y: nat)
    ensures Xor(Xor(x, y), y) == x
    decreases x + y
  {
    if x + y > 0 {
      XorInvolutive(x / 2, y / 2);
      var z := Xor(x, y);
      assert z / 2 == Xor(x / 2, y / 2);
      if z + y == 0 { XorZero(x); }
    }
  }

  lemma {:induction false} XorZero(x: nat)
    ensures Xor(x, 0) == x
  {
    if x > 0 { XorZero(x / 2); }
  }

  lemma {:induction false} Pow2Monotone(m: nat, n: nat)
    requires m <= n
    ensures Pow2(m) <= Pow2(n)
    decreases n
  {
    if m < n { Pow2Monotone(m, n - 1); }
  }

  lemma {:induction false} Pow2Values()
    ensures Pow2(2) == 4 && Pow2(4) == 16 && Pow2(8) == 256
    ensures Pow2(16) == 0x1_0000 && Pow2(32) == 0x1_0000_0000
    ensures Pow2(64) == 0x1_0000_0000_0000_0000
  {
    assert Pow2(4) == 16 && Pow2(8) == 256 by { assert Pow2(6) == 64; }
    assert Pow2(12) == 0x1000 && Pow2(16) == 0x1_0000 by { assert Pow2(10) == 0x400 && Pow2(14) == 0x4000; }
    Pow2Add(16, 16);
    Pow2Add(32, 32);
  }

  lemma {:induction false} Pow2Add(m: nat, n: nat)
    ensures Pow2(m + n) == Pow2(m) * Pow2(n)
    decreases m
  {
    if m > 0 { Pow2Add(m - 1, n); }
  }

  /** Low bits below a block of k zero bits: or-ing adds, and shifting them out again forgets them. */
  lemma {:induction false} OrBelow(q: nat, k: nat, low: nat)
    requires low < Pow2(k)
    ensures Or(Shl(q, k), low) == Shl(q, k) + low
    ensures Shr(Shl(q, k) + low, k) == q
    decreases k
  {
    if k == 0 {
      OrZero(q);
    } else {
      OrBelow(q, k - 1, low / 2);
      var x := Shl(q, k);
      assert x / 2 == Shl(q, k - 1) && (x + low) / 2 == Shl(q, k - 1) + low / 2;
    }
  }

  lemma {:induction false} OrZero(x: nat)
    ensures Or(x, 0) == x
  {
    if x > 0 { OrZero(x / 2); }
  }

  lemma {:induction false} OrEven(x: nat, v: nat)
    ensures Or(2 * x, v) == v % 2 + 2 * Or(x, v / 2)
  {
    if x + v == 0 { assert Or(0, 0) == 0; }
  }

  lemma {:induction false} OrCommutes(x: nat, y: nat)
    ensures Or(x, y) == Or(y, x)
    decreases x + y
  {
    if x + y > 0 { OrCommutes(x / 2, y / 2); }
  }

  lemma {:induction false} ShlIsTimes(x: nat, k: nat)
    ensures Shl(x, k) == x * Pow2(k)
    decreases k
  {
    if k > 0 { ShlIsTimes(x, k - 1); }
  }

  lemma {:induction false} ShrTwice(x: nat, j: nat, k: nat)
    ensures Shr(Shr(x, j), k) == Shr(x, j + k)
    decreases j
  {
    if j > 0 { ShrTwice(x / 2, j - 1, k); }
  }

  /** Masking off what was added above the low k bits. */
  lemma {:induction false} TruncBelow(q: nat, k: nat, low: nat)
    requires low < Pow2(k)
    ensures Trunc(Shl(q, k) + low, k) == low
    decreases k
  {
    if k > 0 {
      var x := Shl(q, k);
      assert x / 2 == Shl(q, k - 1) && (x + low) / 2 == Shl(q, k - 1) + low / 2 && (x + low) % 2 == low % 2;
      TruncBelow(q, k - 1, low / 2);
    }
  }

  lemma {:induction false} SplitAt(x: nat, k: nat)
    ensures x == Shl(Shr(x, k), k) + Trunc(x, k)
    decreases k
  {
    if k > 0 { SplitAt(x / 2, k - 1); }
  }


  /** Bits above k or-ed together leave the low k bits alone. */
  lemma {:induction false} OrAbove(p: nat, q: nat, k: nat, low: nat)
    requires low < Pow2(k)
    ensures Or(Shl(p, k) + low, Shl(q, k)) == Shl(Or(p, q), k) + low
    decreases k
  {
    if k > 0 {
      OrAbove(p, q, k - 1, low / 2);
      var x, y := Shl(p, k) + low, Shl(q, k);
      assert x / 2 == Shl(p, k - 1) + low / 2 && y / 2 == Shl(q, k - 1) && x % 2 == low % 2 && y % 2 == 0;
      if x + y == 0 { OrZeroShift(p, q, k - 1); }
    }
  }

  lemma {:induction false} OrZeroShift(p: nat, q: nat, k: nat)
    requires Shl(p, k) + Shl(q, k) == 0
    ensures Shl(Or(p, q), k) == 0
    decreases k
  {
    if k > 0 { OrZeroShift(p, q, k - 1); }
  }

  /** Comparing with a power of two by looking at the top bits only. */
  lemma {:induction false} TopBelow(x: nat, k: nat, n: nat)
    ensures Shr(x, k) < Pow2(n) <==> x < Pow2(n + k)
    decreases k
  {
    if k > 0 { TopBelow(x / 2, k - 1, n); }
  }

  // ----- sequences of bits -----

  /** The low n bits of x, least significant first. */
  function LowBits(x: nat, n: nat): (s: seq<bool>)
    ensures |s| == n
  {
    seq(n, i requires 0 <= i < n => Bit(x, i))
  }

  /** Bit j of a byte string read least significant bit first. */
  predicate BitAt(s: seq<byte>, j: nat)
    requires j < 8 * |s|
  {
    Bit(s[j / 8], j % 8)
  }

  /** A byte string as the bit stream it carries, least significant bit first. */
  function Stream(s: seq<byte>): (bits: seq<bool>)
    ensures |bits| == 8 * |s|
  {
    seq(8 * |s|, j requires 0 <= j < 8 * |s| => BitAt(s, j))
  }

  lemma {:induction false} StreamAppend(s: seq<byte>, t: seq<byte>)
    ensures Stream(s + t) == Stream(s) + Stream(t)
  {
    forall j: nat | j < 8 * |s + t| ensures Stream(s + t)[j] == (Stream(s) + Stream(t))[j] {
      if j >= 8 * |s| { assert (j - 8 * |s|) % 8 == j % 8 && (j - 8 * |s|) / 8 == j / 8 - |s|; }
    }
  }

  // ----- byte strings as numbers -----

  /** Big-endian value of a byte string. */
  function BigEndian(s: seq<byte>): nat {
    if s == [] then 0 else BigEndian(s[..|s| - 1]) * 256 + s[|s| - 1]
  }

  /** The low n bytes of x, most significant first. */
  function PutBytes(x: nat, n: nat): (s: seq<byte>)
    ensures |s| == n
  {
    if n == 0 then [] else PutBytes(x / 256, n - 1) + [x % 256]
  }

  lemma {:induction false} GetPut(x: nat, n: nat)
    requires x < Pow2(8 * n)
    ensures BigEndian(PutBytes(x, n)) == x
    decreases n
  {
    if n > 0 {
      ByteShift(n);
      GetPut(x / 256, n - 1);
      assert PutBytes(x, n)[..n - 1] == PutBytes(x / 256, n - 1);
    }
  }

  lemma {:induction false} PutGet(s: seq<byte>)
    ensures BigEndian(s) < Pow2(8 * |s|) && PutBytes(BigEndian(s), |s|) == s
    decreases |s|
  {
    if s != [] {
      ByteShift(|s|);
      PutGet(s[..|s| - 1]);
    }
  }

  lemma {:induction false} ByteShift(n: nat)
    requires n > 0
    ensures Pow2(8 * n) == 256 * Pow2(8 * (n - 1))
  {
    Pow2Add(8, 8 * (n - 1));
    Pow2Values();
  }

  lemma {:induction false} ShrByte(x: nat)
    ensures Shr(x, 8) == x / 256
  {
    assert Shr(x, 8) == Shr(x / 2, 7) && Shr(x / 2, 7) == Shr(x / 4, 6) && Shr(x / 4, 6) == Shr(x / 8, 5);
    assert Shr(x / 8, 5) == Shr(x / 16, 4) && Shr(x / 16, 4) == Shr(x / 32, 3) && Shr(x / 32, 3) == Shr(x / 64, 2);
    assert Shr(x / 64, 2) == Shr(x / 128, 1) && Shr(x / 128, 1) == Shr(x / 256, 0);
  }

  lemma {:induction false} FirstByte(x: nat, n: nat)
    requires n > 0 && x < Pow2(8 * n)
    ensures PutBytes(x, n)[0] == Shr(x, 8 * (n - 1))
    decreases n
  {
    if n > 1 {
      ByteShift(n);
      FirstByte(x / 256, n - 1);
      ShrByte(x);
      ShrTwice(x, 8, 8 * (n - 2));
    } else {
      ByteShift(1);
    }
  }
}
