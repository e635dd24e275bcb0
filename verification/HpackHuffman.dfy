/** The HPACK Huffman coder (csrc/hpack_huffman.c), for any left-aligned prefix code. */
module HpackHuffman {
  // The measure is section 5.2 of RFC 7541: bits are taken most significant first and the last byte
  // is padded with ones.

  import opened Optional
  import opened Words

  datatype Sym = Sym(nbits: nat, code: nat) {
    /** 5 to 30 bits, at the top of a 32-bit word. */
    ghost predicate LeftAligned() {
      5 <= nbits <= 30 && code < Pow2(32) && Trunc(code, 32 - nbits) == 0
    }
  }
  datatype Node = Node(fstate: nat, flags: nat, sym: byte)

  const ACCEPTED := 0
  const SYM := 1

  type Table = t: seq<Sym> | |t| == 256 witness seq(256, i => Sym(5, 0))

  ghost predicate WellFormed(t: Table) {
    forall s: byte :: t[s].LeftAligned()
  }

  /** The top n bits of a w-bit word, most significant first. */
  function HighBits(x: nat, w: nat, n: nat): (s: seq<bool>)
    requires n <= w
    ensures |s| == n
  {
    seq(n, j requires 0 <= j < n => Bit(x, w - 1 - j))
  }

  /** A byte string as bits, most significant bit of each byte first. */
  function MsbStream(s: seq<byte>): (bits: seq<bool>)
    ensures |bits| == 8 * |s|
  {
    seq(8 * |s|, j requires 0 <= j < 8 * |s| => Bit(s[j / 8], 7 - j % 8))
  }

  function Ones(n: nat): (s: seq<bool>)
    ensures |s| == n
  {
    seq(n, i => true)
  }

  /** The bit string of each byte. */
  type Code = c: seq<seq<bool>> | |c| == 256 witness seq(256, i => [])

  function CodeOf(t: Table): (c: Code)
    requires WellFormed(t)
    ensures forall s: byte :: c[s] == HighBits(t[s].code, 32, t[s].nbits)
  {
    seq(256, s requires 0 <= s < 256 => assert t[s].LeftAligned(); HighBits(t[s].code, 32, t[s].nbits))
  }

  /** The concatenated codes of the first n source bytes. */
  function EncodeBits(c: Code, src: seq<byte>, n: nat): seq<bool>
    requires n <= |src|
  {
    if n == 0 then [] else EncodeBits(c, src, n - 1) + c[src[n - 1]]
  }

  // ----- encoder -----

  method EncodeCount(src: seq<byte>, t: Table) returns (r: nat)
    requires WellFormed(t)
    ensures r == (|EncodeBits(CodeOf(t), src, |src|)| + 7) / 8
  {
    var nbits := 0;
    for i := 0 to |src|
      invariant nbits == |EncodeBits(CodeOf(t), src, i)|
    {
      nbits := nbits + t[src[i]].nbits;
    }
    r := (nbits + 7) / 8;
  }

  lemma {:induction false} MsbAppend(s: seq<byte>, u: seq<byte>)
    ensures MsbStream(s + u) == MsbStream(s) + MsbStream(u)
  {
    forall j: nat | j < 8 * |s + u| ensures MsbStream(s + u)[j] == (MsbStream(s) + MsbStream(u))[j] {
      if j >= 8 * |s| { assert (j - 8 * |s|) % 8 == j % 8 && (j - 8 * |s|) / 8 == j / 8 - |s|; }
    }
  }

  /** The accumulator holds n bits at its top and zeros below. */
  ghost predicate Holds(code: nat, n: nat) {
    n <= 64 && code < Pow2(64) && Trunc(code, 64 - n) == 0
  }

  lemma {:induction false} ZeroBit(x: nat, n: nat, i: nat)
    requires Trunc(x, n) == 0 && i < n
    ensures !Bit(x, i)
  {
    BitTrunc(x, n, i);
    BitOfZero(i);
  }

  lemma {:induction false} ZeroBits(x: nat, n: nat)
    requires forall i: nat | i < n :: !Bit(x, i)
    ensures Trunc(x, n) == 0
  {
    forall i: nat | i < n ensures Bit(Trunc(x, n), i) == Bit(0, i) { BitTrunc(x, n, i); BitOfZero(i); }
    TruncBound(x, n);
    SameBits(Trunc(x, n), 0, n);
  }

  lemma {:induction false} AbsorbBit(code: nat, n: nat, symCode: nat, i: nat)
    requires n < 32 && Holds(code, n) && symCode < Pow2(32) && i < 64
    ensures Bit(Or(code, Shl(symCode, 32 - n)), i)
         == if i >= 64 - n then Bit(code, i) else i >= 32 - n && Bit(symCode, i - (32 - n))
  {
    BitOr(code, Shl(symCode, 32 - n), i);
    BitShl(symCode, 32 - n, i);
    if i >= 64 - n { BitBeyond(symCode, 32, i - (32 - n)); } else { ZeroBit(code, 64 - n, i); }
  }

  lemma {:induction false} AbsorbHolds(code: nat, n: nat, sym: Sym)
    requires n < 32 && Holds(code, n) && sym.LeftAligned()
    ensures Holds(Or(code, Shl(sym.code, 32 - n)), n + sym.nbits)
  {
    AbsorbBound(code, n, sym);
    AbsorbClean(code, n, sym, 64 - (n + sym.nbits));
  }

  lemma {:induction false} AbsorbBound(code: nat, n: nat, sym: Sym)
    requires n < 32 && code < Pow2(64) && sym.code < Pow2(32)
    ensures Or(code, Shl(sym.code, 32 - n)) < Pow2(64)
  {
    ShlBound(sym.code, 32 - n, 32);
    Pow2Monotone(64 - n, 64);
    OrBound(code, Shl(sym.code, 32 - n), 64);
  }

  lemma {:induction false} AbsorbClean(code: nat, n: nat, sym: Sym, low: nat)
    requires n < 32 && Holds(code, n) && sym.LeftAligned() && low == 64 - (n + sym.nbits)
    ensures Trunc(Or(code, Shl(sym.code, 32 - n)), low) == 0
  {
    var c := Or(code, Shl(sym.code, 32 - n));
    forall i: nat | i < low ensures !Bit(c, i) { AbsorbZero(code, n, sym, i); }
    ZeroBits(c, low);
  }

  lemma {:induction false} AbsorbZero(code: nat, n: nat, sym: Sym, i: nat)
    requires n < 32 && Holds(code, n) && sym.LeftAligned() && i < 64 - (n + sym.nbits)
    ensures !Bit(Or(code, Shl(sym.code, 32 - n)), i)
  {
    AbsorbBit(code, n, sym.code, i);
    if i >= 32 - n { ZeroBit(sym.code, 32 - sym.nbits, i - (32 - n)); }
  }

  lemma {:induction false} Absorb(code: nat, n: nat, sym: Sym)
    requires n < 32 && Holds(code, n) && sym.LeftAligned()
    ensures HighBits(Or(code, Shl(sym.code, 32 - n)), 64, n + sym.nbits)
         == HighBits(code, 64, n) + HighBits(sym.code, 32, sym.nbits)
  {
    var c := Or(code, Shl(sym.code, 32 - n));
    var have, want := HighBits(c, 64, n + sym.nbits), HighBits(code, 64, n) + HighBits(sym.code, 32, sym.nbits);
    forall j: nat | j < n + sym.nbits ensures have[j] == want[j] {
      HeldBelow(c, n + sym.nbits, j);
      AbsorbBit(code, n, sym.code, 63 - j);
      TwoParts(code, n, sym.code, sym.nbits, j);
    }
  }

  lemma {:induction false} TwoParts(code: nat, n: nat, symCode: nat, nbits: nat, j: nat)
    requires n < 32 && nbits <= 32 && j < n + nbits
    ensures (HighBits(code, 64, n) + HighBits(symCode, 32, nbits))[j] == if j < n then Bit(code, 63 - j) else Bit(symCode, 31 - (j - n))
  {
  }

  function TopByte(x: nat): (b: byte)
    requires x < Pow2(64)
  {
    ShrBound(x, 56, 8);
    Pow2Values();
    Shr(x, 56)
  }

  /** The 32-bit store after the byte swap: most significant byte first. */
  function BigEndianBytes(x: nat): (s: seq<byte>)
    ensures |s| == 4
  {
    TruncBound(x, 8); TruncBound(Shr(x, 8), 8); TruncBound(Shr(x, 16), 8); TruncBound(Shr(x, 24), 8);
    Pow2Values();
    [Trunc(Shr(x, 24), 8), Trunc(Shr(x, 16), 8), Trunc(Shr(x, 8), 8), Trunc(x, 8)]
  }

  lemma {:induction false} BigEndianBits(x: nat)
    ensures MsbStream(BigEndianBytes(x)) == HighBits(x, 32, 32)
  {
    var s := BigEndianBytes(x);
    forall j: nat | j < 32 ensures Bit(s[j / 8], 7 - j % 8) == Bit(x, 31 - j) {
      var k := 24 - 8 * (j / 8);
      assert s[j / 8] == Trunc(Shr(x, k), 8);
      BitTrunc(Shr(x, k), 8, 7 - j % 8);
      BitShr(x, k, 7 - j % 8);
    }
  }

  lemma {:induction false} ShiftedBit(code: nat, m: nat, i: nat)
    requires i < 64
    ensures Bit(Trunc(Shl(code, m), 64), i) == (i >= m && Bit(code, i - m))
  {
    BitTrunc(Shl(code, m), 64, i);
    BitShl(code, m, i);
  }

  lemma {:induction false} ShiftHolds(code: nat, n: nat, m: nat)
    requires Holds(code, n) && m <= n
    ensures Holds(Trunc(Shl(code, m), 64), n - m)
  {
    var c := Trunc(Shl(code, m), 64);
    TruncBound(Shl(code, m), 64);
    forall i: nat | i < 64 - (n - m) ensures !Bit(c, i) {
      ShiftedBit(code, m, i);
      if i >= m { ZeroBit(code, 64 - n, i - m); }
    }
    ZeroBits(c, 64 - (n - m));
  }

  /** Shifting m bits out of the top leaves the rest in place. */
  lemma {:induction false} ShiftOut(code: nat, n: nat, m: nat)
    requires m <= n <= 64
    ensures HighBits(code, 64, n) == HighBits(code, 64, m) + HighBits(Trunc(Shl(code, m), 64), 64, n - m)
  {
    var c := Trunc(Shl(code, m), 64);
    forall j: nat | j < n
      ensures HighBits(code, 64, n)[j] == (HighBits(code, 64, m) + HighBits(c, 64, n - m))[j]
    {
      if j >= m { ShiftedBit(code, m, 63 - (j - m)); }
    }
  }

  lemma {:induction false} FlushWord(code: nat, n: nat)
    requires Holds(code, n) && n >= 32
    ensures MsbStream(BigEndianBytes(Shr(code, 32))) == HighBits(code, 64, 32)
  {
    BigEndianBits(Shr(code, 32));
    forall j: nat | j < 32 ensures HighBits(Shr(code, 32), 32, 32)[j] == HighBits(code, 64, 32)[j] {
      BitShr(code, 32, 31 - j);
    }
  }

  lemma {:induction false} FlushByte(code: nat, n: nat)
    requires Holds(code, n)
    ensures MsbStream([TopByte(code)]) == HighBits(code, 64, 8)
  {
    forall j: nat | j < 8 ensures MsbStream([TopByte(code)])[j] == HighBits(code, 64, 8)[j] {
      BitShr(code, 56, 7 - j);
    }
  }

  lemma {:induction false} BitOfMask(k: nat, i: nat)
    ensures Bit(Pow2(k) - 1, i) == (i < k)
    decreases k
  {
    if k == 0 { BitOfZero(i); } else if i > 0 {
      assert (Pow2(k) - 1) / 2 == Pow2(k - 1) - 1;
      BitOfMask(k - 1, i - 1);
    }
  }

  lemma {:induction false} PadBit(code: nat, top: byte, mask: nat, n: nat, j: nat)
    requires code < Pow2(64) && 0 < n < 8 && top == TopByte(code) && mask == Pow2(8 - n) - 1 && j < 8
    ensures Bit(Or(top, mask), 7 - j) == (Bit(code, 63 - j) || j >= n)
  {
    BitOr(top, mask, 7 - j);
    BitOfMask(8 - n, 7 - j);
    BitShr(code, 56, 7 - j);
  }

  lemma {:induction false} PadBound(top: byte, mask: nat, n: nat)
    requires 0 < n < 8 && mask == Pow2(8 - n) - 1
    ensures Or(top, mask) < 256
  {
    Pow2Values();
    Pow2Monotone(8 - n, 8);
    OrBound(top, mask, 8);
  }

  lemma {:induction false} PadByte(code: nat, n: nat, last: nat)
    requires Holds(code, n) && 0 < n < 8 && last == Or(TopByte(code), Pow2(8 - n) - 1)
    ensures last < 256
    ensures MsbStream([last]) == HighBits(code, 64, n) + Ones(8 - n)
  {
    var top, mask := TopByte(code), Pow2(8 - n) - 1;
    PadBound(top, mask, n);
    var want := HighBits(code, 64, n) + Ones(8 - n);
    forall j: nat | j < 8 ensures MsbStream([last])[j] == want[j] {
      PadBit(code, top, mask, n, j);
      PaddedBit(code, n, j);
      ByteStream(last, j);
    }
  }

  lemma {:induction false} PaddedBit(code: nat, n: nat, j: nat)
    requires n < 8 && j < 8
    ensures (HighBits(code, 64, n) + Ones(8 - n))[j] == (Bit(code, 63 - j) || j >= n)
  {
    if j < n { HeldBelow(code, n, j); }
  }

  lemma {:induction false} ByteStream(b: byte, j: nat)
    requires j < 8
    ensures MsbStream([b])[j] == Bit(b, 7 - j)
  {
  }

  lemma {:induction false} HeldBelow(code: nat, n: nat, j: nat)
    requires n <= 64 && j < n
    ensures HighBits(code, 64, n)[j] == Bit(code, 63 - j)
  {
  }

  /** Copies x to dest[p..]. */
  method Put(dest: array<byte>, p: nat, x: seq<byte>)
    requires p + |x| <= dest.Length
    modifies dest
    ensures dest[..p + |x|] == old(dest[..p]) + x
    ensures forall k | p + |x| <= k < dest.Length :: dest[k] == old(dest[k])
  {
    forall k | 0 <= k < |x| { dest[p + k] := x[k]; }
  }

  /** The bits written and the bits held, while the accumulator is clean below them. */
  ghost function Progress(sent: seq<byte>, code: nat, nbits: nat): Option<seq<bool>> {
    if Holds(code, nbits) then Some(MsbStream(sent) + HighBits(code, 64, nbits)) else None
  }

  lemma {:induction false} Assoc(a: seq<bool>, b: seq<bool>, c: seq<bool>)
    ensures (a + b) + c == a + (b + c)
  {
  }

  lemma {:induction false} AbsorbSymbol(sent: seq<byte>, code: nat, n: nat, sym: Sym, bits: seq<bool>)
    requires n < 32 && Progress(sent, code, n) == Some(bits) && sym.LeftAligned()
    ensures Progress(sent, Or(code, Shl(sym.code, 32 - n)), n + sym.nbits)
         == Some(bits + HighBits(sym.code, 32, sym.nbits))
  {
    Absorb(code, n, sym);
    AbsorbHolds(code, n, sym);
    Assoc(MsbStream(sent), HighBits(code, 64, n), HighBits(sym.code, 32, sym.nbits));
  }

  lemma {:induction false} EmitWord(sent: seq<byte>, code: nat, nbits: nat)
    requires nbits >= 32 && Progress(sent, code, nbits).Some?
    ensures Progress(sent + BigEndianBytes(Shr(code, 32)), Trunc(Shl(code, 32), 64), nbits - 32)
         == Progress(sent, code, nbits)
  {
    FlushWord(code, nbits);
    ShiftOut(code, nbits, 32);
    ShiftHolds(code, nbits, 32);
    MsbAppend(sent, BigEndianBytes(Shr(code, 32)));
    Assoc(MsbStream(sent), HighBits(code, 64, 32), HighBits(Trunc(Shl(code, 32), 64), 64, nbits - 32));
  }

  lemma {:induction false} EmitByte(sent: seq<byte>, code: nat, nbits: nat)
    requires nbits >= 8 && Progress(sent, code, nbits).Some?
    ensures Progress(sent + [TopByte(code)], Trunc(Shl(code, 8), 64), nbits - 8) == Progress(sent, code, nbits)
  {
    FlushByte(code, nbits);
    ShiftOut(code, nbits, 8);
    ShiftHolds(code, nbits, 8);
    MsbAppend(sent, [TopByte(code)]);
    Assoc(MsbStream(sent), HighBits(code, 64, 8), HighBits(Trunc(Shl(code, 8), 64), 64, nbits - 8));
  }

  lemma {:induction false} EmitPadding(sent: seq<byte>, code: nat, nbits: nat)
    requires 0 < nbits < 8 && Progress(sent, code, nbits).Some?
    ensures var last := Or(TopByte(code), Pow2(8 - nbits) - 1);
      last < 256 && MsbStream(sent + [last]) == Progress(sent, code, nbits).value + Ones(8 - nbits)
  {
    var last := Or(TopByte(code), Pow2(8 - nbits) - 1);
    PadByte(code, nbits, last);
    MsbAppend(sent, [last]);
    Assoc(MsbStream(sent), HighBits(code, 64, nbits), Ones(8 - nbits));
  }

  lemma {:induction false} StartClean(sent: seq<byte>, code: nat, nbits: nat)
    requires sent == [] && code == 0 && nbits == 0
    ensures Progress(sent, code, nbits) == Some([])
  {
    forall i: nat | i < 64 ensures !Bit(code, i) { BitOfZero(i); }
    ZeroBits(code, 64);
    assert MsbStream(sent) + HighBits(code, 64, nbits) == [];
  }

  /** One source byte of the main loop: at most one 32-bit word goes out. */
  method EncodeSymbol(dest: array<byte>, sym: Sym, p0: nat, code0: nat, nbits0: nat, ghost bits: seq<bool>)
    returns (p: nat, code: nat, nbits: nat)
    requires sym.LeftAligned()
    requires p0 <= dest.Length && nbits0 < 32 && Progress(dest[..p0], code0, nbits0) == Some(bits)
    requires 8 * p0 + nbits0 + sym.nbits <= 8 * dest.Length
    modifies dest
    ensures p0 <= p <= dest.Length && nbits < 32
    ensures Progress(dest[..p], code, nbits) == Some(bits + HighBits(sym.code, 32, sym.nbits))
    ensures forall k | p <= k < dest.Length :: dest[k] == old(dest[k])
  {
    p := p0;
    AbsorbSymbol(dest[..p0], code0, nbits0, sym, bits);
    code := Or(code0, Shl(sym.code, 32 - nbits0));
    nbits := nbits0 + sym.nbits;
    while nbits >= 32
      invariant p0 <= p <= dest.Length && nbits < 64 && 8 * p + nbits <= 8 * dest.Length
      invariant Progress(dest[..p], code, nbits) == Some(bits + HighBits(sym.code, 32, sym.nbits))
      invariant forall k | p <= k < dest.Length :: dest[k] == old(dest[k])
      decreases nbits
    {
      EmitWord(dest[..p], code, nbits);
      Put(dest, p, BigEndianBytes(Shr(code, 32)));
      p := p + 4;
      code := Trunc(Shl(code, 32), 64);
      nbits := nbits - 32;
    }
  }

  /** Whole bytes still held. */
  method EmitBytes(dest: array<byte>, p0: nat, code0: nat, nbits0: nat, ghost bits: seq<bool>)
    returns (p: nat, code: nat, nbits: nat)
    requires p0 <= dest.Length && nbits0 < 32 && Progress(dest[..p0], code0, nbits0) == Some(bits)
    requires |bits| == 8 * p0 + nbits0 && 8 * dest.Length >= |bits|
    modifies dest
    ensures p0 <= p <= dest.Length && nbits < 8 && |bits| == 8 * p + nbits && Progress(dest[..p], code, nbits) == Some(bits)
    ensures forall k | p <= k < dest.Length :: dest[k] == old(dest[k])
  {
    p, code, nbits := p0, code0, nbits0;
    while nbits >= 8
      invariant p0 <= p <= dest.Length && nbits < 32 && |bits| == 8 * p + nbits
      invariant Progress(dest[..p], code, nbits) == Some(bits)
      invariant forall k | p <= k < dest.Length :: dest[k] == old(dest[k])
    {
      EmitByte(dest[..p], code, nbits);
      Put(dest, p, [TopByte(code)]);
      p := p + 1;
      code := Trunc(Shl(code, 8), 64);
      nbits := nbits - 8;
    }
  }

  /** The tail: whole bytes, then a last byte padded with ones. */
  method FinishEncode(dest: array<byte>, p0: nat, code0: nat, nbits0: nat, ghost bits: seq<bool>) returns (p: nat)
    requires p0 <= dest.Length && nbits0 < 32 && Progress(dest[..p0], code0, nbits0) == Some(bits)
    requires |bits| == 8 * p0 + nbits0 && dest.Length >= (|bits| + 7) / 8
    modifies dest
    ensures p0 <= p == (|bits| + 7) / 8 && MsbStream(dest[..p]) == bits + Ones(8 * p - |bits|)
    ensures forall k | p <= k < dest.Length :: dest[k] == old(dest[k])
  {
    var code, nbits;
    p, code, nbits := EmitBytes(dest, p0, code0, nbits0, bits);
    if nbits > 0 {
      RoundUp(|bits|, p + 1, nbits);
      p := EmitLast(dest, p, code, nbits, bits);
    } else {
      NothingHeld(dest[..p], code, bits);
    }
  }

  /** The last byte: what is held, then ones. */
  method EmitLast(dest: array<byte>, p0: nat, code: nat, nbits: nat, ghost bits: seq<bool>) returns (p: nat)
    requires 0 < nbits < 8 && p0 < dest.Length && Progress(dest[..p0], code, nbits) == Some(bits)
    modifies dest
    ensures p == p0 + 1 && MsbStream(dest[..p]) == bits + Ones(8 - nbits)
    ensures forall k | p <= k < dest.Length :: dest[k] == old(dest[k])
  {
    EmitPadding(dest[..p0], code, nbits);
    Put(dest, p0, [Or(TopByte(code), Pow2(8 - nbits) - 1)]);
    p := p0 + 1;
  }

  lemma {:induction false} RoundUp(n: nat, p: nat, k: nat)
    requires 0 < k < 8 && n == 8 * (p - 1) + k
    ensures p == (n + 7) / 8 && 8 * p - n == 8 - k
  {
  }

  lemma {:induction false} NothingHeld(sent: seq<byte>, code: nat, bits: seq<bool>)
    requires Progress(sent, code, 0) == Some(bits)
    ensures MsbStream(sent) == bits && bits + Ones(0) == bits
  {
  }

  lemma {:induction false} EncodeLength(t: Table, src: seq<byte>, i: nat, n: nat)
    requires WellFormed(t) && i <= n <= |src|
    ensures |EncodeBits(CodeOf(t), src, n)| >= |EncodeBits(CodeOf(t), src, i)| + 5 * (n - i)
    decreases n
  {
    if i < n { EncodeLength(t, src, i, n - 1); }
  }

  /** Writes the source's codes, padded with ones to a whole byte, and nothing else. */
  method Encode(dest: array<byte>, src: seq<byte>, t: Table) returns (n: nat)
    requires WellFormed(t) && dest.Length >= (|EncodeBits(CodeOf(t), src, |src|)| + 7) / 8
    modifies dest
    ensures n == (|EncodeBits(CodeOf(t), src, |src|)| + 7) / 8
    ensures MsbStream(dest[..n]) == EncodeBits(CodeOf(t), src, |src|) + Ones(8 * n - |EncodeBits(CodeOf(t), src, |src|)|)
    ensures forall k | n <= k < dest.Length :: dest[k] == old(dest[k])
  {
    n := EncodeAs(dest, src, t, CodeOf(t), EncodeBits(CodeOf(t), src, |src|));
  }

  /** The same, told the code c and its bits. */
  method EncodeAs(dest: array<byte>, src: seq<byte>, t: Table, ghost c: Code, ghost bits: seq<bool>) returns (n: nat)
    requires WellFormed(t) && c == CodeOf(t) && bits == EncodeBits(c, src, |src|) && dest.Length >= (|bits| + 7) / 8
    modifies dest
    ensures n == (|bits| + 7) / 8 && MsbStream(dest[..n]) == bits + Ones(8 * n - |bits|)
    ensures forall k | n <= k < dest.Length :: dest[k] == old(dest[k])
  {
    var p, code, nbits := EncodeLoop(dest, src, t, c);
    n := FinishEncode(dest, p, code, nbits, bits);
  }

  /** The tables of a code. */
  ghost function Tables(c: Code): iset<Table> { iset t: Table | WellFormed(t) && CodeOf(t) == c }

  /** The main loop over the source bytes. */
  method EncodeLoop(dest: array<byte>, src: seq<byte>, t: Table, ghost c: Code) returns (p: nat, code: nat, nbits: nat)
    requires t in Tables(c) && 8 * dest.Length >= |EncodeBits(c, src, |src|)|
    modifies dest
    ensures p <= dest.Length && nbits < 32 && |EncodeBits(c, src, |src|)| == 8 * p + nbits
    ensures Progress(dest[..p], code, nbits) == Some(EncodeBits(c, src, |src|))
    ensures forall k | p <= k < dest.Length :: dest[k] == old(dest[k])
  {
    p, code, nbits := 0, 0, 0;
    ghost var bits: seq<bool> := [];
    StartClean(dest[..p], code, nbits);
    assert EncodeBits(c, src, 0) == bits;
    for i := 0 to |src|
      invariant p <= dest.Length && nbits < 32 && |bits| == 8 * p + nbits && bits == EncodeBits(c, src, i)
      invariant Progress(dest[..p], code, nbits) == Some(bits)
      invariant forall k | p <= k < dest.Length :: dest[k] == old(dest[k])
    {
      p, code, nbits := EncodeNext(dest, src, t, c, i, p, code, nbits);
      bits := EncodeBits(c, src, i + 1);
    }
  }

  method EncodeNext(dest: array<byte>, src: seq<byte>, t: Table, ghost c: Code, i: nat, p0: nat, code0: nat, nbits0: nat)
    returns (p: nat, code: nat, nbits: nat)
    requires t in Tables(c) && i < |src| && 8 * dest.Length >= |EncodeBits(c, src, |src|)|
    requires p0 <= dest.Length && nbits0 < 32 && |EncodeBits(c, src, i)| == 8 * p0 + nbits0
    requires Progress(dest[..p0], code0, nbits0) == Some(EncodeBits(c, src, i))
    modifies dest
    ensures p0 <= p <= dest.Length && nbits < 32 && |EncodeBits(c, src, i + 1)| == 8 * p + nbits
    ensures Progress(dest[..p], code, nbits) == Some(EncodeBits(c, src, i + 1))
    ensures forall k | p <= k < dest.Length :: dest[k] == old(dest[k])
  {
    NextCode(t, c, src, i);
    p, code, nbits := EncodeSymbol(dest, t[src[i]], p0, code0, nbits0, EncodeBits(c, src, i));
    ProgressLength(dest[..p], code, nbits);
  }

  lemma {:induction false} NextCode(t: Table, c: Code, src: seq<byte>, i: nat)
    requires WellFormed(t) && c == CodeOf(t) && i < |src|
    ensures var sym := t[src[i]];
      && sym.LeftAligned() && EncodeBits(c, src, i + 1) == EncodeBits(c, src, i) + HighBits(sym.code, 32, sym.nbits)
      && |EncodeBits(c, src, i)| + sym.nbits <= |EncodeBits(c, src, |src|)|
  {
    EncodeLength(t, src, i + 1, |src|);
  }

  lemma {:induction false} ProgressLength(sent: seq<byte>, code: nat, nbits: nat)
    requires Progress(sent, code, nbits).Some?
    ensures |Progress(sent, code, nbits).value| == 8 * |sent| + nbits
  {
  }

  // ----- the bit-by-bit reference decoder -----

  /** No code is a prefix of another. */
  ghost predicate PrefixFree(c: Code) {
    forall a: byte, b: byte {:trigger Begins(c[a], c[b])} | a != b :: !Begins(c[a], c[b])
  }

  ghost predicate Begins(p: seq<bool>, q: seq<bool>) {
    |p| <= |q| && p == q[..|p|]
  }

  /** Seven ones are a proper beginning of some code, as they are of the RFC's EOS symbol. */
  ghost predicate PadSafe(c: Code) {
    exists s: byte :: Inside(Ones(7), c[s])
  }

  ghost predicate Inside(p: seq<bool>, q: seq<bool>) {
    |p| < |q| && p == q[..|p|]
  }

  ghost predicate IsCode(c: Code, p: seq<bool>) {
    exists s: byte :: c[s] == p
  }

  ghost predicate IsInner(c: Code, p: seq<bool>) {
    exists s: byte :: Inside(p, c[s])
  }

  /** Where the decoder is: inside a code after `path`, or past any code. */
  datatype Cursor = Lost | At(path: seq<bool>)
  datatype Walk = Walk(cursor: Cursor, out: seq<byte>)

  const Start := Walk(At([]), [])

  ghost function Next(c: Code, w: Walk, b: bool): Walk {
    match w.cursor
    case Lost => w
    case At(path) =>
      if IsCode(c, path + [b]) then
        var s: byte :| c[s] == path + [b];
        Walk(At([]), w.out + [s])
      else if IsInner(c, path + [b]) then Walk(At(path + [b]), w.out)
      else Walk(Lost, w.out)
  }

  /** The first n bits, one at a time. */
  ghost function Feed(c: Code, w: Walk, bits: seq<bool>, n: nat): Walk
    requires n <= |bits|
  {
    if n == 0 then w else Next(c, Feed(c, w, bits, n - 1), bits[n - 1])
  }

  /** Padding is fewer than eight ones. */
  ghost predicate Accepting(c: Cursor) {
    c.At? && |c.path| < 8 && c.path == Ones(|c.path|)
  }

  ghost function Reference(c: Code, bits: seq<bool>): Option<seq<byte>> {
    var w := Feed(c, Start, bits, |bits|);
    if Accepting(w.cursor) then Some(w.out) else None
  }

  /** What has been read is the codes of the output followed by the path. */
  lemma {:induction false} FeedDecomposes(c: Code, bits: seq<bool>, n: nat)
    requires n <= |bits| && Feed(c, Start, bits, n).cursor.At?
    ensures var w := Feed(c, Start, bits, n);
      bits[..n] == EncodeBits(c, w.out, |w.out|) + w.cursor.path
    decreases n
  {
    if n > 0 {
      FeedDecomposes(c, bits, n - 1);
      var u, w := Feed(c, Start, bits, n - 1), Feed(c, Start, bits, n);
      assert bits[..n] == bits[..n - 1] + [bits[n - 1]];
      var p := u.cursor.path + [bits[n - 1]];
      assert bits[..n] == EncodeBits(c, u.out, |u.out|) + p;
      if IsCode(c, p) {
        EncodePrefix(c, u.out, w.out, |u.out|);
        assert w.cursor.path == [];
      }
    }
  }

  lemma {:induction false} EncodePrefix(c: Code, a: seq<byte>, b: seq<byte>, n: nat)
    requires n <= |a| && n <= |b| && a[..n] == b[..n]
    ensures EncodeBits(c, a, n) == EncodeBits(c, b, n)
    decreases n
  {
    if n > 0 {
      assert a[n - 1] == a[..n][n - 1] == b[..n][n - 1] == b[n - 1];
      assert a[..n - 1] == a[..n][..n - 1] == b[..n][..n - 1] == b[..n - 1];
      EncodePrefix(c, a, b, n - 1);
    }
  }

  lemma {:induction false} NextInside(c: Code, s: byte, k: nat, out: seq<byte>)
    requires PrefixFree(c) && k + 1 < |c[s]|
    ensures Next(c, Walk(At(c[s][..k]), out), c[s][k]) == Walk(At(c[s][..k + 1]), out)
  {
    var p := c[s][..k + 1];
    assert c[s][..k] + [c[s][k]] == p;
    assert Inside(p, c[s]);
    forall a: byte ensures c[a] != p {
      if a != s { assert !Begins(c[a], c[s]); }
    }
  }

  lemma {:induction false} NextLast(c: Code, s: byte, out: seq<byte>)
    requires PrefixFree(c) && |c[s]| > 0
    ensures var k := |c[s]| - 1; Next(c, Walk(At(c[s][..k]), out), c[s][k]) == Walk(At([]), out + [s])
  {
    var k := |c[s]| - 1;
    assert c[s][..k] + [c[s][k]] == c[s];
    forall a: byte | a != s ensures c[a] != c[s] {
      assert !Begins(c[a], c[s]);
    }
  }

  /** Reading k bits into the code of s. */
  lemma {:induction false} FeedInto(c: Code, bits: seq<bool>, n: nat, s: byte, k: nat, out: seq<byte>)
    requires PrefixFree(c) && k < |c[s]| && n + k <= |bits|
    requires Feed(c, Start, bits, n) == Walk(At([]), out)
    requires forall i | 0 <= i < k :: bits[n + i] == c[s][i]
    ensures Feed(c, Start, bits, n + k) == Walk(At(c[s][..k]), out)
    decreases k
  {
    if k > 0 {
      FeedInto(c, bits, n, s, k - 1, out);
      NextInside(c, s, k - 1, out);
      assert bits[n + (k - 1)] == c[s][k - 1];
    }
  }

  lemma {:induction false} FeedCode(c: Code, bits: seq<bool>, n: nat, s: byte, out: seq<byte>)
    requires PrefixFree(c) && |c[s]| > 0 && n + |c[s]| <= |bits|
    requires Feed(c, Start, bits, n) == Walk(At([]), out)
    requires forall i | 0 <= i < |c[s]| :: bits[n + i] == c[s][i]
    ensures Feed(c, Start, bits, n + |c[s]|) == Walk(At([]), out + [s])
  {
    var k: nat := |c[s]| - 1;
    FeedInto(c, bits, n, s, k, out);
    NextLast(c, s, out);
    assert bits[n + k] == c[s][k];
  }

  lemma {:induction false} EncodeGrows(c: Code, src: seq<byte>, i: nat, n: nat)
    requires i <= n <= |src|
    ensures EncodeBits(c, src, i) <= EncodeBits(c, src, n)
    decreases n
  {
    if i < n { EncodeGrows(c, src, i, n - 1); }
  }

  lemma {:induction false} ChunkAt(c: Code, src: seq<byte>, bits: seq<bool>, n: nat)
    requires n < |src| && EncodeBits(c, src, |src|) <= bits
    ensures var m, s := |EncodeBits(c, src, n)|, src[n];
      && m + |c[s]| == |EncodeBits(c, src, n + 1)| <= |bits|
      && forall i | 0 <= i < |c[s]| :: bits[m + i] == c[s][i]
  {
    EncodeGrows(c, src, n + 1, |src|);
    Chunk(EncodeBits(c, src, n), c[src[n]], EncodeBits(c, src, n + 1), bits);
  }

  lemma {:induction false} Chunk(a: seq<bool>, b: seq<bool>, ab: seq<bool>, bits: seq<bool>)
    requires ab == a + b && ab <= bits
    ensures forall i | 0 <= i < |b| :: bits[|a| + i] == b[i]
  {
    forall i | 0 <= i < |b| ensures bits[|a| + i] == b[i] { assert bits[|a| + i] == ab[|a| + i]; }
  }

  lemma {:induction false} FeedEncoded(c: Code, src: seq<byte>, bits: seq<bool>, n: nat)
    requires PrefixFree(c) && (forall s: byte :: |c[s]| > 0) && n <= |src|
    requires EncodeBits(c, src, |src|) <= bits
    ensures |EncodeBits(c, src, n)| <= |bits|
    ensures Feed(c, Start, bits, |EncodeBits(c, src, n)|) == Walk(At([]), src[..n])
    decreases n
  {
    if n > 0 {
      assert src[..n - 1] + [src[n - 1]] == src[..n];
      var m, s, out := |EncodeBits(c, src, n - 1)|, src[n - 1], src[..n - 1];
      ChunkAt(c, src, bits, n - 1);
      assert Feed(c, Start, bits, m) == Walk(At([]), out) by { FeedEncoded(c, src, bits, n - 1); }
      assert |c[s]| > 0;
      FeedCode(c, bits, m, s, out);
    }
  }

  lemma {:induction false} FeedPadding(c: Code, bits: seq<bool>, n: nat, k: nat, out: seq<byte>)
    requires PrefixFree(c) && PadSafe(c) && k < 8 && n + k <= |bits|
    requires Feed(c, Start, bits, n) == Walk(At([]), out)
    requires forall i | n <= i < n + k :: bits[i]
    ensures Feed(c, Start, bits, n + k) == Walk(At(Ones(k)), out)
  {
    var s: byte :| Inside(Ones(7), c[s]);
    forall i | 0 <= i < k ensures c[s][i] {
      assert c[s][..7][i] == Ones(7)[i];
    }
    assert c[s][..k] == Ones(k);
    FeedInto(c, bits, n, s, k, out);
  }

  /** A usable code: prefix-free, no code empty, and padding never completes a code. */
  ghost predicate Usable(c: Code) {
    PrefixFree(c) && PadSafe(c) && forall s: byte :: |c[s]| > 0
  }

  lemma {:induction false} DecodesEncoded(c: Code, out: seq<byte>, k: nat)
    requires Usable(c) && k < 8
    ensures Reference(c, EncodeBits(c, out, |out|) + Ones(k)) == Some(out)
  {
    var code := EncodeBits(c, out, |out|);
    var bits := code + Ones(k);
    FeedEncoded(c, out, bits, |out|);
    assert out[..|out|] == out;
    forall i | |code| <= i < |code| + k ensures bits[i] { assert bits[i] == Ones(k)[i - |code|]; }
    FeedPadding(c, bits, |code|, k, out);
  }

  lemma {:induction false} AcceptsOnlyEncoded(c: Code, bits: seq<bool>)
    requires Reference(c, bits).Some?
    ensures var out := Reference(c, bits).value;
      exists k: nat :: k < 8 && bits == EncodeBits(c, out, |out|) + Ones(k)
  {
    FeedDecomposes(c, bits, |bits|);
    assert bits[..|bits|] == bits;
    var w := Feed(c, Start, bits, |bits|);
    assert bits == EncodeBits(c, w.out, |w.out|) + Ones(|w.cursor.path|);
  }

  /** The reference decoder accepts exactly the padded encodings, and inverts them. */
  lemma {:induction false} ReferenceInverts(c: Code, bits: seq<bool>, out: seq<byte>)
    requires Usable(c)
    ensures Reference(c, bits) == Some(out) <==>
      exists k: nat :: k < 8 && bits == EncodeBits(c, out, |out|) + Ones(k)
  {
    if Reference(c, bits) == Some(out) { AcceptsOnlyEncoded(c, bits); }
    if k: nat :| k < 8 && bits == EncodeBits(c, out, |out|) + Ones(k) { DecodesEncoded(c, out, k); }
  }
}
