/** The Brotli bit writer and bit reader (internal/compress/brotli). */
module BitIO {
  // Both work through a 64-bit accumulator; the stream they exchange is a byte string read least
  // significant bit first (section 1.5.1 of RFC 7932).

  import opened Words

  /** The four bytes of the low 32 bits of x, low byte first. */
  function LittleEndianBytes(x: nat): (s: seq<byte>)
    ensures |s| == 4
  {
    ByteBound(x); ByteBound(Shr(x, 8)); ByteBound(Shr(x, 16)); ByteBound(Shr(x, 24));
    [Trunc(x, 8), Trunc(Shr(x, 8), 8), Trunc(Shr(x, 16), 8), Trunc(Shr(x, 24), 8)]
  }

  /** binary.LittleEndian.Uint32. */
  function LittleEndianWord(s: seq<byte>): nat
    requires |s| == 4
  {
    Or(s[0], Or(Shl(s[1], 8), Or(Shl(s[2], 16), Shl(s[3], 24))))
  }

  lemma {:induction false} ByteBound(x: nat)
    ensures Trunc(x, 8) < 256
  {
    TruncBound(x, 8);
    Pow2Values();
  }

  lemma {:induction false} LittleEndianBytesBits(x: nat)
    ensures Stream(LittleEndianBytes(x)) == LowBits(x, 32)
  {
    var s := LittleEndianBytes(x);
    forall j: nat | j < 32 ensures BitAt(s, j) == Bit(x, j) {
      var k := j / 8;
      assert s[k] == Trunc(Shr(x, 8 * k), 8);
      BitTrunc(Shr(x, 8 * k), 8, j % 8);
      BitShr(x, 8 * k, j % 8);
    }
  }

  lemma {:induction false} LittleEndianWordBits(s: seq<byte>, i: nat)
    requires |s| == 4
    ensures Bit(LittleEndianWord(s), i) == (i < 32 && BitAt(s, i))
  {
    PlacedByte(s, 3, 24, i);
    OrPlaced(s, 2, 16, Shl(s[3], 24), i);
    OrPlaced(s, 1, 8, Or(Shl(s[2], 16), Shl(s[3], 24)), i);
    OrPlaced(s, 0, 0, Or(Shl(s[1], 8), Or(Shl(s[2], 16), Shl(s[3], 24))), i);
    assert Shl(s[0], 0) == s[0];
  }

  /** Or-ing byte k below the bytes that follow it. */
  lemma {:induction false} OrPlaced(s: seq<byte>, k: nat, sh: nat, above: nat, i: nat)
    requires k < |s| == 4 && sh == 8 * k && Bit(above, i) == (sh + 8 <= i < 32 && BitAt(s, i))
    ensures Bit(Or(Shl(s[k], sh), above), i) == (sh <= i < 32 && BitAt(s, i))
  {
    BitOr(Shl(s[k], sh), above, i);
    PlacedByte(s, k, sh, i);
  }

  /** Byte k of a string, shifted to its place in the word, gives bits 8k to 8k + 7. */
  lemma {:induction false} PlacedByte(s: seq<byte>, k: nat, sh: nat, i: nat)
    requires k < |s| && sh == 8 * k
    ensures Bit(Shl(s[k], sh), i) == (sh <= i < sh + 8 && BitAt(s, i))
  {
    BitShl(s[k], sh, i);
    if i >= sh + 8 {
      Pow2Values();
      BitBeyond(s[k], 8, i - sh);
    }
  }

  lemma {:induction false} LittleEndianWordBound(s: seq<byte>)
    requires |s| == 4
    ensures LittleEndianWord(s) < Pow2(32)
  {
    Pow2Values();
    ShlBound(s[1], 8, 8);
    ShlBound(s[2], 16, 8);
    ShlBound(s[3], 24, 8);
    Pow2Monotone(8, 32); Pow2Monotone(16, 32); Pow2Monotone(24, 32);
    OrBound(Shl(s[2], 16), Shl(s[3], 24), 32);
    OrBound(Shl(s[1], 8), Or(Shl(s[2], 16), Shl(s[3], 24)), 32);
    OrBound(s[0], Or(Shl(s[1], 8), Or(Shl(s[2], 16), Shl(s[3], 24))), 32);
  }

  /** A write of the low nb bits of b. */
  datatype Write = Write(nb: nat, b: nat) {
    predicate Valid() { 1 <= nb <= 32 && b < Pow2(nb) }
  }

  /** The bits a sequence of writes puts on the stream. */
  function BitsOf(ws: seq<Write>): seq<bool> {
    if ws == [] then [] else BitsOf(ws[..|ws| - 1]) + LowBits(ws[|ws| - 1].b, ws[|ws| - 1].nb)
  }

  class BitWriter {
    var dst: seq<byte>
    var bits: nat
    var nbits: nat

    ghost predicate Valid()
      reads this
    {
      nbits < 32 && bits < Pow2(nbits)
    }

    /** Everything written so far, flushed or pending. */
    ghost function Written(): (s: seq<bool>)
      reads this
    {
      Stream(dst) + LowBits(bits, nbits)
    }

    constructor ()
      ensures Valid() && Written() == []
    {
      dst, bits, nbits := [], 0, 0;
    }

    method WriteBits(nb: nat, b: nat)
      requires Valid() && nb <= 32 && b < Pow2(nb)
      modifies this
      ensures Valid()
      ensures Written() == old(Written()) + LowBits(b, nb)
    {
      Accumulate(dst, bits, b, nbits, nb);
      bits := Or(bits, Trunc(Shl(b, nbits), 64));
      nbits := nbits + nb;
      if nbits >= 32 {
        Flush(dst, bits, nbits);
        var x := bits;
        bits := Shr(bits, 32);
        nbits := nbits - 32;
        dst := dst + LittleEndianBytes(x);
      }
    }

    method JumpToByteBoundary()
      requires Valid()
      modifies this
      ensures Valid() && bits == 0 && nbits == 0
      ensures Written() == Stream(dst)
      ensures old(Written()) <= Written()
      ensures |Written()| < |old(Written())| + 8
      ensures forall j :: |old(Written())| <= j < |Written()| ==> !Written()[j]
    {
      ghost var n0 := |Written()|;
      while nbits != 0
        invariant Valid()
        invariant old(Written()) <= Written()
        invariant |Written()| < n0 + 8 && (nbits != 0 ==> |Written()| == n0)
        invariant forall j :: n0 <= j < |Written()| ==> !Written()[j]
        decreases nbits
      {
        ByteBound(bits);
        FlushPadded(dst, bits, nbits, if nbits > 8 then nbits - 8 else 0);
        dst := dst + [Trunc(bits, 8)];
        bits := Shr(bits, 8);
        nbits := if nbits > 8 then nbits - 8 else 0;
      }
      assert bits == 0 by { assert bits < Pow2(0); }
      bits := 0;
    }
  }

  lemma {:induction false} Accumulate(dst: seq<byte>, bits: nat, b: nat, n: nat, nb: nat)
    requires n < 32 && nb <= 32 && bits < Pow2(n) && b < Pow2(nb)
    ensures var x := Or(bits, Trunc(Shl(b, n), 64));
      && x < Pow2(n + nb)
      && Stream(dst) + LowBits(x, n + nb) == Stream(dst) + LowBits(bits, n) + LowBits(b, nb)
  {
    var y := Shl(b, n);
    ShlBound(b, n, nb);
    AccumulateBits(bits, y, b, n, nb);
    Pow2Monotone(n + nb, 64);
    TruncIdentity(y, 64);
    Pow2Monotone(n, n + nb);
    OrBound(bits, y, n + nb);
  }

  lemma {:induction false} AccumulateBits(bits: nat, y: nat, b: nat, n: nat, nb: nat)
    requires bits < Pow2(n) && y == Shl(b, n)
    ensures LowBits(Or(bits, y), n + nb) == LowBits(bits, n) + LowBits(b, nb)
  {
    forall i: nat | i < n + nb ensures Bit(Or(bits, y), i) == (if i < n then Bit(bits, i) else Bit(b, i - n)) {
      BitOr(bits, y, i);
      BitShl(b, n, i);
      if i >= n { BitBeyond(bits, n, i); }
    }
  }

  lemma {:induction false} Flush(dst: seq<byte>, bits: nat, n: nat)
    requires n >= 32 && bits < Pow2(n)
    ensures Shr(bits, 32) < Pow2(n - 32)
    ensures Stream(dst) + LowBits(bits, n)
         == Stream(dst + LittleEndianBytes(bits)) + LowBits(Shr(bits, 32), n - 32)
  {
    ShrBound(bits, 32, n - 32);
    StreamAppend(dst, LittleEndianBytes(bits));
    LittleEndianBytesBits(bits);
    forall i: nat | i < n - 32 ensures Bit(Shr(bits, 32), i) == Bit(bits, i + 32) {
      BitShr(bits, 32, i);
    }
  }

  lemma {:induction false} FlushBound(bits: nat, n: nat, k: nat)
    requires bits < Pow2(n) && n <= k + 8
    ensures Trunc(bits, 8) < 256 && Shr(bits, 8) < Pow2(k)
  {
    ByteBound(bits);
    Pow2Monotone(n, k + 8);
    ShrBound(bits, 8, k);
  }

  lemma {:induction false} FlushByte(bits: nat, n: nat)
    requires bits < Pow2(n)
    ensures Trunc(bits, 8) < 256
    ensures Shr(bits, 8) < Pow2(if n > 8 then n - 8 else 0)
    ensures forall i: nat | i < 8 :: Stream([Trunc(bits, 8)])[i] == (i < n && Bit(bits, i))
    ensures n > 8 ==> LowBits(bits, n) == Stream([Trunc(bits, 8)]) + LowBits(Shr(bits, 8), n - 8)
  {
    FlushBound(bits, n, if n > 8 then n - 8 else 0);
    forall i: nat | i < 8 ensures Stream([Trunc(bits, 8)])[i] == (i < n && Bit(bits, i)) {
      BitTrunc(bits, 8, i);
      if i >= n { BitBeyond(bits, n, i); }
    }
    forall i: nat | 8 <= i < n ensures Bit(Shr(bits, 8), i - 8) == Bit(bits, i) {
      BitShr(bits, 8, i - 8);
    }
  }

  /** One byte out: nothing is lost, and what is added to complete the byte is zero. */
  lemma {:induction false} FlushPadded(dst: seq<byte>, bits: nat, n: nat, k: nat)
    requires bits < Pow2(n) && n > 0 && k == (if n > 8 then n - 8 else 0)
    ensures Trunc(bits, 8) < 256 && Shr(bits, 8) < Pow2(k)
    ensures var was, now := Stream(dst) + LowBits(bits, n), Stream(dst + [Trunc(bits, 8)]) + LowBits(Shr(bits, 8), k);
      was <= now && |now| < |was| + 8 && (k > 0 ==> |now| == |was|) && forall j | |was| <= j < |now| :: !now[j]
  {
    FlushByte(bits, n);
    StreamAppend(dst, [Trunc(bits, 8)]);
    if k > 0 {
      assert Stream(dst) + (Stream([Trunc(bits, 8)]) + LowBits(Shr(bits, 8), k))
          == Stream(dst) + Stream([Trunc(bits, 8)]) + LowBits(Shr(bits, 8), k);
    }
  }

  datatype Window = InStep | OutOfStep

  /** In step: bits b..64 of the accumulator are the last bits of the input before byte p. */
  ghost function WindowOf(input: seq<byte>, p: nat, v: nat, b: nat): Window
    requires b <= 64 && p <= |input| && 64 - b <= 8 * p
  {
    if forall i: nat | b <= i < 64 :: Bit(v, i) == BitAt(input, 8 * p + i - 64) then InStep else OutOfStep
  }

  ghost predicate Buffered(input: seq<byte>, bytePos: nat, val: nat, bitPos: nat) {
    && val < TwoTo64 && bitPos <= 64
    && bytePos <= |input| && 64 - bitPos <= 8 * bytePos
    && WindowOf(input, bytePos, val, bitPos) == InStep
  }

  /** Bit i of the accumulator, and the window that begins there. */
  lemma {:induction false} InStepFrom(input: seq<byte>, p: nat, v: nat, b: nat, i: nat)
    requires b <= i <= 64 && p <= |input| && 64 - b <= 8 * p && WindowOf(input, p, v, b) == InStep
    ensures WindowOf(input, p, v, i) == InStep && (i < 64 ==> Bit(v, i) == BitAt(input, 8 * p + i - 64))
  {
  }

  class BitReader {
    var val_: nat
    var bitPos: nat
    var input: seq<byte>
    var inputLen: nat
    var bytePos: nat

    ghost predicate Valid()
      reads this
    {
      bytePos <= inputLen <= |input| && Buffered(input, bytePos, val_, bitPos)
    }

    /** The bits not yet consumed: those in the accumulator, then the rest of the input. */
    ghost function Pending(): (s: seq<bool>)
      reads this
      requires Valid()
    {
      Stream(input[..inputLen])[Position()..]
    }

    /** The first bit not yet consumed. */
    ghost function Position(): nat
      reads this
      requires Valid()
    {
      8 * bytePos - (64 - bitPos)
    }

    constructor (source: seq<byte>)
      ensures Valid() && Pending() == Stream(source)
    {
      val_, bitPos, input, inputLen, bytePos := 0, 64, source, |source|, 0;
      new;
      assert input[..inputLen] == source;
    }

    function AvailableBits(): nat
      reads this
      requires bitPos <= 64
    {
      64 - bitPos
    }

    predicate CheckInputAmount(num: nat)
      reads this
      requires bytePos <= inputLen
    {
      inputLen - bytePos >= num
    }

    /** The 4-byte refill. The accumulator must not be empty: at bit position 64 the flip
        of bit 5 is no subtraction (see FlipTopBit). */
    method FillBitWindow()
      requires Valid() && AvailableBits() >= 1
      requires bitPos >= 32 ==> CheckInputAmount(4)
      modifies this`val_, this`bitPos, this`bytePos
      ensures Valid() && Pending() == old(Pending())
      ensures AvailableBits() > 32
    {
      if bitPos >= 32 {
        RefillFour(input, bytePos, val_, bitPos);
        var word := LittleEndianWord(input[bytePos..bytePos + 4]);
        val_ := Or(Shr(val_, 32), Shl(word, 32));
        FlipTopBit(bitPos);
        bitPos := Xor(bitPos, 32);
        bytePos := bytePos + 4;
      }
    }

    /** The 1-byte refill; the accumulator must have room for the byte. */
    method PullByte() returns (ok: bool)
      requires Valid() && bitPos >= 8
      modifies this`val_, this`bitPos, this`bytePos
      ensures Valid() && Pending() == old(Pending())
      ensures ok == (old(bytePos) < inputLen)
      ensures AvailableBits() == old(AvailableBits()) + (if ok then 8 else 0)
      ensures bytePos == old(bytePos) + (if ok then 1 else 0)
    {
      if bytePos == inputLen { return false; }
      RefillOne(input, bytePos, val_, bitPos);
      val_ := Or(Shr(val_, 8), Shl(input[bytePos], 56));
      bitPos := bitPos - 8;
      bytePos := bytePos + 1;
      return true;
    }

    method WarmUp() returns (ok: bool)
      requires Valid()
      modifies this`val_, this`bitPos, this`bytePos
      ensures Valid() && Pending() == old(Pending())
      ensures ok == (Pending() != []) && (ok ==> AvailableBits() > 0)
    {
      ok := true;
      if AvailableBits() == 0 { ok := PullByte(); }
    }

    /** Reads n bits already in the accumulator. */
    method TakeBits(n: nat) returns (v: nat)
      requires Valid() && n <= 32 && n <= AvailableBits()
      modifies this`bitPos
      ensures Valid() && n <= |old(Pending())| && Pending() == old(Pending())[n..]
      ensures v < Pow2(n) && LowBits(v, n) == old(Pending())[..n]
    {
      v := Trunc(Trunc(Shr(val_, bitPos), 32), n);
      Taken(input[..inputLen], input, bytePos, val_, bitPos, n, v);
      bitPos := bitPos + n;
    }

    method ReadBits(n: nat) returns (v: nat)
      requires Valid() && AvailableBits() >= 1 && n <= 32
      requires bitPos >= 32 ==> CheckInputAmount(4)
      modifies this`val_, this`bitPos, this`bytePos
      ensures Valid() && n <= |old(Pending())| && Pending() == old(Pending())[n..]
      ensures v < Pow2(n) && LowBits(v, n) == old(Pending())[..n]
    {
      FillBitWindow();
      v := TakeBits(n);
    }

    /** Succeeds exactly when n bits are left; a failed read consumes nothing. */
    method SafeReadBits(n: nat) returns (ok: bool, v: nat)
      requires Valid() && n <= 32
      modifies this`val_, this`bitPos, this`bytePos
      ensures Valid() && ok == (n <= |old(Pending())|)
      ensures ok ==> Pending() == old(Pending())[n..] && v < Pow2(n) && LowBits(v, n) == old(Pending())[..n]
      ensures !ok ==> Pending() == old(Pending())
    {
      while AvailableBits() < n
        invariant Valid() && Pending() == old(Pending())
        decreases inputLen - bytePos
      {
        var pulled := PullByte();
        if !pulled { return false, 0; }
      }
      v := TakeBits(n);
      ok := true;
    }

    /** Gives the accumulator's whole bytes back to the input. */
    method Unload()
      requires Valid()
      modifies this`val_, this`bitPos, this`bytePos
      ensures Valid() && Pending() == old(Pending())
      ensures AvailableBits() < 8
    {
      ghost var v, b, p := val_, bitPos, bytePos;
      var unusedBytes := AvailableBits() / 8;
      var unusedBits := unusedBytes * 8;
      bytePos := bytePos - unusedBytes;
      if unusedBits == 64 {
        val_ := 0;
      } else {
        val_ := Trunc(Shl(val_, unusedBits), 64);
      }
      bitPos := bitPos + unusedBits;
      Unloaded(input, p, v, b, unusedBytes, val_);
      assert Position() == old(Position());
    }

    /** Skips to the next byte boundary; succeeds exactly when every skipped bit is zero. */
    method JumpToByteBoundary() returns (ok: bool)
      requires Valid()
      modifies this`bitPos
      ensures Valid()
      ensures var pad := |old(Pending())| % 8;
        && Pending() == old(Pending())[pad..]
        && ok == (forall j | 0 <= j < pad :: !old(Pending())[j])
    {
      var padBits := 0;
      var n := AvailableBits() % 8;
      ghost var was := Pending();
      ModEight(inputLen - bytePos, AvailableBits());
      if n != 0 {
        padBits := TakeBits(n);
        ZeroBits(padBits, n, was);
      }
      ok := padBits == 0;
    }

    /** The first loop of CopyBytes: drains whole bytes from the accumulator. */
    method DrainBytes(dest: array<byte>, num: nat) returns (k: nat)
      requires Valid() && num <= dest.Length
      modifies this`bitPos, dest
      ensures Valid() && k == (if num < old(AvailableBits()) / 8 then num else old(AvailableBits()) / 8)
      ensures AvailableBits() == old(AvailableBits()) - 8 * k && 8 * k <= |old(Pending())|
      ensures Stream(dest[..k]) == old(Pending())[..8 * k] && Pending() == old(Pending())[8 * k..]
      ensures dest[num..] == old(dest[num..])
    {
      k := 0;
      ghost var given, start, a := input[..inputLen], Position(), AvailableBits();
      while AvailableBits() >= 8 && k < num
        invariant Valid() && k <= num && AvailableBits() == a - 8 * k && Position() == start + 8 * k
        invariant Stream(dest[..k]) == Stream(given)[start..][..8 * k]
        invariant forall i | num <= i < dest.Length :: dest[i] == old(dest[i])
      {
        ByteBound(Shr(val_, bitPos));
        TakenByte(given, input, bytePos, val_, bitPos, Trunc(Shr(val_, bitPos), 8));
        OneMoreByte(dest[..k], Trunc(Shr(val_, bitPos), 8), Stream(given)[start..]);
        dest[k] := Trunc(Shr(val_, bitPos), 8);
        assert dest[..k + 1] == dest[..k] + [dest[k]];
        bitPos := bitPos + 8;
        k := k + 1;
      }
    }

    /** Copies num bytes out, first those in the accumulator, then straight from the input. Up to the
        accumulator's whole bytes, or when it holds no part of one, they are the next pending bits.
        Otherwise the odd bits are passed over: they stay in the accumulator while the bytes behind
        them are copied. */
    method CopyBytes(dest: array<byte>, num: nat)
      requires Valid() && num <= inputLen - bytePos + AvailableBits() / 8 && num <= dest.Length
      modifies this`bitPos, this`bytePos, dest
      ensures var p, q, odd := old(Pending()), old(AvailableBits()) / 8, old(AvailableBits()) % 8;
        && (num <= q || odd == 0 ==> 8 * num <= |p| && Valid() && Pending() == p[8 * num..] && Stream(dest[..num]) == p[..8 * num])
        && (num > q ==> 8 * num + odd <= |p| && Stream(dest[..num]) == p[..8 * q] + p[8 * q + odd..8 * num + odd]
                        && bitPos == 64 - odd && bytePos == old(bytePos) + (num - q))
      ensures dest[num..] == old(dest[num..])
    {
      ghost var given, p, a, start := input[..inputLen], bytePos, AvailableBits(), Position();
      ghost var q, odd := a / 8, a % 8;
      ghost var k := CopyThrough(dest, num);
      ghost var bits, all := Stream(given), dest[..num];
      if num > q {
        CopiedBeyond(given, p, start, q, odd, num, bits, all);
        if odd == 0 { EmptyBuffer(input, p, val_, bytePos); }
      } else {
        assert all[..num] == all;
      }
      if num <= q || odd == 0 { PendingAt(this, given, start, 8 * num); }
    }

    /** The two steps: k bytes from the accumulator, the others from the input behind it. */
    method CopyThrough(dest: array<byte>, num: nat) returns (ghost k: nat)
      requires Valid() && num <= inputLen - bytePos + AvailableBits() / 8 && num <= dest.Length
      modifies this`bitPos, this`bytePos, dest
      ensures k == (if num < old(AvailableBits()) / 8 then num else old(AvailableBits()) / 8)
      ensures bitPos == 64 - old(AvailableBits()) + 8 * k && bytePos == old(bytePos) + (num - k)
      ensures Buffered(input, old(bytePos), val_, bitPos)
      ensures 8 * k <= |old(Pending())| && Stream(dest[..num][..k]) == old(Pending())[..8 * k]
      ensures dest[..num] == dest[..num][..k] + input[..inputLen][old(bytePos)..bytePos] && dest[num..] == old(dest[num..])
    {
      var n := DrainBytes(dest, num);
      ghost var drained, p := dest[..n], bytePos;
      CopyTo(dest, n, input[bytePos..bytePos + (num - n)]);
      bytePos := bytePos + (num - n);
      k := n;
      assert dest[..num][..k] == drained && input[..inputLen][p..bytePos] == input[p..bytePos];
    }
  }

  /** Go's copy into dest[k..]. */
  method CopyTo(dest: array<byte>, k: nat, src: seq<byte>)
    requires k + |src| <= dest.Length
    modifies dest
    ensures dest[..k + |src|] == old(dest[..k]) + src && dest[k + |src|..] == old(dest[k + |src|..])
  {
    forall i | 0 <= i < |src| { dest[k + i] := src[i]; }
  }

  /** A byte taken from the accumulator is the next eight pending bits. */
  lemma {:induction false} TakenByte(given: seq<byte>, input: seq<byte>, p: nat, v: nat, b: nat, r: byte)
    requires Buffered(input, p, v, b) && b + 8 <= 64 && p <= |given| && given <= input && r == Trunc(Shr(v, b), 8)
    ensures Stream([r]) == Stream(given)[8 * p - (64 - b)..][..8] && Buffered(input, p, v, b + 8)
  {
    InStepFrom(input, p, v, b, b + 8);
    var want := Stream(given)[8 * p - (64 - b)..][..8];
    forall i: nat | i < 8 ensures Stream([r])[i] == want[i] {
      BitTrunc(Shr(v, b), 8, i);
      BitShr(v, b, i);
      InStepFrom(input, p, v, b, b + i);
    }
  }

  lemma {:induction false} OneMoreByte(s: seq<byte>, r: byte, pending: seq<bool>)
    requires 8 * |s| + 8 <= |pending| && Stream(s) == pending[..8 * |s|] && Stream([r]) == pending[8 * |s|..][..8]
    ensures Stream(s + [r]) == pending[..8 * |s + [r]|]
  {
    StreamAppend(s, [r]);
    assert pending[..8 * |s|] + pending[8 * |s|..][..8] == pending[..8 * |s| + 8];
  }

  /** What is pending n bits on from a position. */
  lemma {:induction false} PendingAt(r: BitReader, given: seq<byte>, start: nat, n: nat)
    requires r.Valid() && r.input[..r.inputLen] == given && r.Position() == start + n
    ensures n <= |Stream(given)[start..]| && r.Pending() == Stream(given)[start..][n..]
  {
  }

  /** q bytes copied from a position on, then the others from behind the odd bits. */
  lemma {:induction false} CopiedBeyond(given: seq<byte>, p: nat, start: nat, q: nat, odd: nat, num: nat, bits: seq<bool>, all: seq<byte>)
    requires start + 8 * q + odd == 8 * p && q < num && p + (num - q) <= |given| && bits == Stream(given)
    requires |all| == num && all == all[..q] + given[p..p + (num - q)] && Stream(all[..q]) == bits[start..][..8 * q]
    ensures 8 * num + odd <= |bits[start..]|
    ensures Stream(all) == bits[start..][..8 * q] + bits[start..][8 * q + odd..8 * num + odd]
    ensures odd == 0 ==> Stream(all) == bits[start..][..8 * num]
  {
    var front, back := all[..q], given[p..p + (num - q)];
    BehindBytes(given, p, num - q, bits);
    StreamAppend(front, back);
    PassedBits(bits, start, 8 * q, odd, 8 * num, Stream(front), Stream(back));
  }

  lemma {:induction false} BehindBytes(given: seq<byte>, p: nat, n: nat, bits: seq<bool>)
    requires p + n <= |given| && bits == Stream(given)
    ensures Stream(given[p..p + n]) == bits[8 * p..8 * p + 8 * n]
  {
    StreamSlice(given, p, p + n);
  }

  /** Of what is pending at a position: the first k bits, and those from k to n after odd ones. */
  lemma {:induction false} PassedBits(bits: seq<bool>, at: nat, k: nat, odd: nat, n: nat, front: seq<bool>, back: seq<bool>)
    requires k <= n && at + n + odd <= |bits| && front == bits[at..][..k] && back == bits[at + k + odd..at + n + odd]
    ensures front + back == bits[at..][..k] + bits[at..][k + odd..n + odd]
    ensures odd == 0 ==> front + back == bits[at..][..n]
  {
  }

  /** The n bits taken from the accumulator are the next n pending ones. */
  lemma {:induction false} Taken(given: seq<byte>, input: seq<byte>, p: nat, v: nat, b: nat, n: nat, r: nat)
    requires Buffered(input, p, v, b) && n <= 32 && b + n <= 64 && p <= |given| && given <= input
    requires r == Trunc(Trunc(Shr(v, b), 32), n)
    ensures r < Pow2(n) && LowBits(r, n) == Stream(given)[8 * p - (64 - b)..][..n]
    ensures Buffered(input, p, v, b + n)
  {
    TruncBound(Trunc(Shr(v, b), 32), n);
    InStepFrom(input, p, v, b, b + n);
    forall i: nat | i < n ensures Bit(r, i) == BitAt(given, 8 * p - (64 - b) + i) {
      BitTrunc(Trunc(Shr(v, b), 32), n, i);
      BitTrunc(Shr(v, b), 32, i);
      BitShr(v, b, i);
      InStepFrom(input, p, v, b, b + i);
    }
  }

  /** The accumulator after n whole bytes were shifted out of it again. */
  lemma {:induction false} Unloaded(input: seq<byte>, p: nat, v: nat, b: nat, n: nat, v': nat)
    requires Buffered(input, p, v, b) && b + 8 * n <= 64
    requires v' == if 8 * n == 64 then 0 else Trunc(Shl(v, 8 * n), 64)
    ensures n <= p && Buffered(input, p - n, v', b + 8 * n)
  {
    UnloadedBound(v, 8 * n);
    forall i: nat | b + 8 * n <= i < 64 ensures Bit(v', i) == BitAt(input, 8 * (p - n) + i - 64) {
      UnloadedBit(v, 8 * n, i);
      InStepFrom(input, p, v, b, i - 8 * n);
    }
  }

  lemma {:induction false} UnloadedBound(v: nat, k: nat)
    ensures Trunc(Shl(v, k), 64) < TwoTo64
  {
    TruncBound(Shl(v, k), 64);
    Pow2Values();
  }

  lemma {:induction false} UnloadedBit(v: nat, k: nat, i: nat)
    requires k <= i < 64
    ensures Bit(Trunc(Shl(v, k), 64), i) == Bit(v, i - k)
  {
    BitTrunc(Shl(v, k), 64, i);
    BitShl(v, k, i);
  }

  /** An empty accumulator fits any position. */
  lemma {:induction false} EmptyBuffer(input: seq<byte>, p: nat, v: nat, p': nat)
    requires Buffered(input, p, v, 64) && p' <= |input|
    ensures Buffered(input, p', v, 64)
  {
  }

  lemma {:induction false} RefillBound(v: nat, word: nat, k: nat)
    requires k <= 64 && v < TwoTo64 && word < Pow2(k)
    ensures Or(Shr(v, k), Shl(word, 64 - k)) < TwoTo64
  {
    Pow2Values();
    ShrBound(v, k, 64 - k);
    Pow2Monotone(64 - k, 64);
    ShlBound(word, 64 - k, k);
    OrBound(Shr(v, k), Shl(word, 64 - k), 64);
  }

  lemma {:induction false} RefillBit(v: nat, word: nat, k: nat, i: nat)
    requires k <= 64 && v < TwoTo64 && i < 64
    ensures Bit(Or(Shr(v, k), Shl(word, 64 - k)), i)
         == if i < 64 - k then Bit(v, i + k) else Bit(word, i - (64 - k))
  {
    BitOr(Shr(v, k), Shl(word, 64 - k), i);
    BitShr(v, k, i);
    BitShl(word, 64 - k, i);
    if i + k >= 64 {
      Pow2Values();
      BitBeyond(v, 64, i + k);
    }
  }

  /** On 32..64, flipping bit 5 subtracts 32 exactly below 64. */
  lemma {:induction false} FlipTopBit(b: nat)
    requires 32 <= b <= 64
    ensures Xor(b, 32) == b - 32 <==> b < 64
  {
    assert Pow2(5) == 32;
    if b < 64 { XorTop(b, 5); } else { assert Xor(64, 32) == 96; }
  }

  lemma {:induction false} XorTop(b: nat, k: nat)
    requires Pow2(k) <= b < 2 * Pow2(k)
    ensures Xor(b, Pow2(k)) == b - Pow2(k)
  {
    if k > 0 { XorTop(b / 2, k - 1); } else { assert Xor(1, 1) == 0; }
  }

  lemma {:induction false} BitAtSlice(s: seq<byte>, lo: nat, n: nat, j: nat)
    requires lo + n <= |s| && j < 8 * n
    ensures BitAt(s[lo..lo + n], j) == BitAt(s, 8 * lo + j)
  {
    assert (8 * lo + j) / 8 == lo + j / 8;
  }

  /** Shifting in a word that carries the next m input bytes keeps the accumulator in step. */
  lemma {:induction false} RefillWord(input: seq<byte>, p: nat, v: nat, b: nat, word: nat, m: nat)
    requires Buffered(input, p, v, b) && 1 <= m <= 8 && 8 * m <= b && p + m <= |input|
    requires word < Pow2(8 * m)
    requires forall j: nat | j < 8 * m :: Bit(word, j) == BitAt(input, 8 * p + j)
    ensures Buffered(input, p + m, Or(Shr(v, 8 * m), Shl(word, 64 - 8 * m)), b - 8 * m)
  {
    var k := 8 * m;
    RefillBound(v, word, k);
    var r := Or(Shr(v, k), Shl(word, 64 - k));
    forall i: nat | b - k <= i < 64 ensures Bit(r, i) == BitAt(input, 8 * (p + m) + i - 64) {
      RefillBit(v, word, k, i);
      if i >= 64 - k {
        assert Bit(word, i - (64 - k)) == BitAt(input, 8 * p + (i - (64 - k)));
      } else {
        InStepFrom(input, p, v, b, i + k);
      }
    }
  }

  lemma {:induction false} RefillFour(input: seq<byte>, p: nat, v: nat, b: nat)
    requires Buffered(input, p, v, b) && b >= 32 && p + 4 <= |input|
    ensures Buffered(input, p + 4, Or(Shr(v, 32), Shl(LittleEndianWord(input[p..p + 4]), 32)), b - 32)
  {
    var word := LittleEndianWord(input[p..p + 4]);
    LittleEndianWordBound(input[p..p + 4]);
    forall j: nat | j < 32 ensures Bit(word, j) == BitAt(input, 8 * p + j) {
      LittleEndianWordBits(input[p..p + 4], j);
      BitAtSlice(input, p, 4, j);
    }
    RefillWord(input, p, v, b, word, 4);
  }

  lemma {:induction false} ByteBits(input: seq<byte>, p: nat)
    requires p < |input|
    ensures input[p] < Pow2(8) && forall j: nat | j < 8 :: Bit(input[p], j) == BitAt(input, 8 * p + j)
  {
    Pow2Values();
  }

  lemma {:induction false} RefillOne(input: seq<byte>, p: nat, v: nat, b: nat)
    requires Buffered(input, p, v, b) && b >= 8 && p < |input|
    ensures Buffered(input, p + 1, Or(Shr(v, 8), Shl(input[p], 56)), b - 8)
  {
    ByteBits(input, p);
    RefillWord(input, p, v, b, input[p], 1);
  }

  lemma {:induction false} StreamSlice(s: seq<byte>, lo: nat, hi: nat)
    requires lo <= hi <= |s|
    ensures Stream(s)[8 * lo..8 * hi] == Stream(s[lo..hi])
    ensures Stream(s)[8 * lo..] == Stream(s[lo..])
  {
    assert s == s[..lo] + s[lo..];
    StreamAppend(s[..lo], s[lo..]);
    assert s[lo..] == s[lo..hi] + s[hi..];
    StreamAppend(s[lo..hi], s[hi..]);
  }

  lemma {:induction false} ModEight(x: nat, a: nat)
    ensures (8 * x + a) % 8 == a % 8
  {
  }

  lemma {:induction false} ZeroBits(v: nat, n: nat, pending: seq<bool>)
    requires v < Pow2(n) && n <= |pending| && LowBits(v, n) == pending[..n]
    ensures v == 0 <==> forall j | 0 <= j < n :: !pending[j]
  {
    forall i: nat | i < n ensures Bit(v, i) == pending[i] && !Bit(0, i) {
      assert pending[..n][i] == LowBits(v, n)[i];
      BitOfZero(i);
    }
    if forall j | 0 <= j < n :: !pending[j] { SameBits(v, 0, n); }
  }

  // ----- the round trip -----

  /** How one read is made: what is done to the reader before it, and by which path. */
  datatype Prelude = Nothing | UnloadFirst | PullFirst | FailFirst
  datatype Read = Read(prelude: Prelude, fast: bool)

  lemma {:induction false} BitsOfPrefix(ws: seq<Write>, i: nat)
    requires i < |ws|
    ensures BitsOf(ws[..i + 1]) == BitsOf(ws[..i]) + LowBits(ws[i].b, ws[i].nb)
    ensures BitsOf(ws[..i + 1]) <= BitsOf(ws)
    decreases |ws|
  {
    assert ws[..i + 1][..i] == ws[..i];
    var init := ws[..|ws| - 1];
    if i + 1 == |ws| {
      assert ws[..i + 1] == ws;
    } else {
      assert init[..i + 1] == ws[..i + 1];
      BitsOfPrefix(init, i);
    }
  }

  lemma {:induction false} SameWrite(v: nat, w: Write)
    requires w.Valid() && v < Pow2(w.nb) && LowBits(v, w.nb) == LowBits(w.b, w.nb)
    ensures v == w.b
  {
    forall i: nat | i < w.nb ensures Bit(v, i) == Bit(w.b, i) {
      assert LowBits(v, w.nb)[i] == LowBits(w.b, w.nb)[i];
    }
    SameBits(v, w.b, w.nb);
  }

  /** One read by any path, after any interfering operation, consumes exactly n bits. */
  method ReadAs(r: BitReader, plan: Read, n: nat) returns (v: nat)
    requires r.Valid() && 1 <= n <= 32 && n <= |r.Pending()|
    modifies r
    ensures r.Valid() && r.Pending() == old(r.Pending())[n..]
    ensures v < Pow2(n) && LowBits(v, n) == old(r.Pending())[..n]
  {
    var ok;
    match plan.prelude {
      case Nothing =>
      case UnloadFirst => r.Unload();
      case PullFirst => if r.bitPos >= 8 { ok := r.PullByte(); }
      case FailFirst =>
        if 8 * (r.inputLen - r.bytePos) + r.AvailableBits() < 32 {
          ok, v := r.SafeReadBits(32);
        }
    }
    ok := r.WarmUp();
    if plan.fast && (r.bitPos < 32 || r.CheckInputAmount(4)) {
      v := r.ReadBits(n);
    } else {
      ok, v := r.SafeReadBits(n);
    }
  }

  method WriteAll(ws: seq<Write>) returns (out: seq<byte>)
    requires forall i | 0 <= i < |ws| :: ws[i].Valid()
    ensures BitsOf(ws) <= Stream(out) && |Stream(out)| < |BitsOf(ws)| + 8
    ensures forall j | |BitsOf(ws)| <= j < |Stream(out)| :: !Stream(out)[j]
  {
    var w := new BitWriter();
    for i := 0 to |ws|
      invariant w.Valid() && fresh(w) && w.Written() == BitsOf(ws[..i])
    {
      BitsOfPrefix(ws, i);
      w.WriteBits(ws[i].nb, ws[i].b);
    }
    assert ws[..|ws|] == ws;
    w.JumpToByteBoundary();
    out := w.dst;
  }

  method ReadAll(r: BitReader, ws: seq<Write>, plan: seq<Read>) returns (vals: seq<nat>)
    requires |plan| == |ws| && forall i | 0 <= i < |ws| :: ws[i].Valid()
    requires r.Valid() && BitsOf(ws) <= r.Pending()
    modifies r
    ensures r.Valid() && r.Pending() == old(r.Pending())[|BitsOf(ws)|..]
    ensures |vals| == |ws| && forall i | 0 <= i < |ws| :: vals[i] == ws[i].b
  {
    ghost var all, done := r.Pending(), BitsOf(ws[..0]);
    vals := [];
    for i := 0 to |ws|
      invariant r.Valid() && done == BitsOf(ws[..i]) && done <= all && r.Pending() == all[|done|..]
      invariant |vals| == i && forall k | 0 <= k < i :: vals[k] == ws[k].b
    {
      BitsOfPrefix(ws, i);
      var v := ReadBack(r, plan[i], ws[i], all, done);
      done := done + LowBits(ws[i].b, ws[i].nb);
      vals := vals + [v];
    }
    assert ws[..|ws|] == ws;
  }

  method ReadBack(r: BitReader, plan: Read, w: Write, ghost all: seq<bool>, ghost done: seq<bool>) returns (v: nat)
    requires w.Valid() && done + LowBits(w.b, w.nb) <= all
    requires r.Valid() && r.Pending() == all[|done|..]
    modifies r
    ensures r.Valid() && r.Pending() == all[|done + LowBits(w.b, w.nb)|..]
    ensures v == w.b
  {
    Consume(all, done, LowBits(w.b, w.nb));
    v := ReadAs(r, plan, w.nb);
    SameWrite(v, w);
  }

  /** Whatever is written is read back, by any mix of reader paths, and the stream then
      ends on a byte boundary reached over zero bits. */
  method RoundTrip(ws: seq<Write>, plan: seq<Read>) returns (vals: seq<nat>, closed: bool, left: nat)
    requires |plan| == |ws| && forall i | 0 <= i < |ws| :: ws[i].Valid()
    ensures |vals| == |ws| && forall i | 0 <= i < |ws| :: vals[i] == ws[i].b
    ensures closed && left == 0
  {
    var out := WriteAll(ws);
    var r := new BitReader(out);
    vals := ReadAll(r, ws, plan);
    closed, left := CloseReader(r);
  }

  /** What ends a stream of which only zero padding is left. */
  method CloseReader(r: BitReader) returns (closed: bool, left: nat)
    requires r.Valid() && |r.Pending()| < 8 && forall j | 0 <= j < |r.Pending()| :: !r.Pending()[j]
    modifies r
    ensures closed && left == 0
  {
    closed := r.JumpToByteBoundary();
    left := r.inputLen - r.bytePos + r.AvailableBits() / 8;
  }

  lemma {:induction false} Consume(all: seq<bool>, a: seq<bool>, b: seq<bool>)
    requires a + b <= all
    ensures all[|a|..][..|b|] == b && all[|a|..][|b|..] == all[|a + b|..]
  {
    assert all[..|a + b|] == a + b;
    forall i | 0 <= i < |b| ensures all[|a| + i] == b[i] {
      assert (a + b)[|a| + i] == b[i];
    }
  }
}
