/**
  QUIC variable-length integers (tunnel/masque/varint.go): the two top bits of the
  first byte give the length (section 16 of RFC 9000).
*/
module Varint {
  import opened Optional
  import opened Words

  /** 2^62: varints carry values below it. */
  const VarintLimit := 0x4000_0000_0000_0000

  /** Number of bytes that EncodeVarint writes. */
  function Size(v: nat): (n: nat)
    ensures n == 1 || n == 2 || n == 4 || n == 8
  {
    if v <= 63 then 1 else if v <= 16383 then 2 else if v <= 1073741823 then 4 else 8
  }

  function EncodeVarint(v: nat): (s: seq<byte>)
    requires v < TwoTo64
    ensures |s| == Size(v)
  {
    if v <= 63 then [v]
    else if v <= 16383 then PutBytes(Or(v, 0x4000), 2)
    else if v <= 1073741823 then PutBytes(Or(v, 0x8000_0000), 4)
    else PutBytes(Or(v, 0xc000_0000_0000_0000), 8)
  }

  datatype Decoded = Decoded(val: nat, readLen: nat)

  /** None is the error: the payload ends before the varint does. */
  function DecodeVarint(payload: seq<byte>): Option<Decoded> {
    if |payload| == 0 then None else
      var tag := Shr(payload[0], 6);
      if tag == 0 then Some(Decoded(Trunc(payload[0], 6), 1))
      else if tag == 1 then
        if |payload| < 2 then None else Some(Decoded(Trunc(BigEndian(payload[..2]), 14), 2))
      else if tag == 2 then
        if |payload| < 4 then None else Some(Decoded(Trunc(BigEndian(payload[..4]), 30), 4))
      else
        if |payload| < 8 then None else Some(Decoded(Trunc(BigEndian(payload[..8]), 62), 8))
  }

  /** The length that a first byte announces: 1 << (first >> 6). */
  function Announced(first: byte): (n: nat)
    ensures n == 1 || n == 2 || n == 4 || n == 8
  {
    TagBound(first);
    Pow2Small();
    Pow2(Shr(first, 6))
  }

  lemma {:induction false} Pow2Small()
    ensures Pow2(0) == 1 && Pow2(1) == 2 && Pow2(2) == 4 && Pow2(3) == 8
  {
    assert Pow2(0) == 1 && Pow2(1) == 2 * Pow2(0);
    assert Pow2(2) == 2 * Pow2(1) && Pow2(3) == 2 * Pow2(2);
  }

  lemma {:induction false} TagBound(first: byte)
    ensures Shr(first, 6) < 4
  {
    Pow2Values();
    ShrBound(first, 6, 2);
  }

  // ----- one description for the four lengths -----

  /** In a varint of n bytes the tag sits above 8n - 2 bits of value. */
  function ValueBits(n: nat): nat
    requires n >= 1
  {
    8 * n - 2
  }

  function TagOf(n: nat): nat {
    if n == 1 then 0 else if n == 2 then 1 else if n == 4 then 2 else 3
  }

  lemma {:induction false} TagValues(n: nat)
    requires n == 1 || n == 2 || n == 4 || n == 8
    ensures Pow2(TagOf(n)) == n && TagOf(n) < 4
    ensures Pow2(6) == 0x40 && Pow2(14) == 0x4000 && Pow2(30) == 0x4000_0000 && Pow2(62) == VarintLimit
    ensures Shl(TagOf(n), ValueBits(n)) == if n == 1 then 0 else if n == 2 then 0x4000 else if n == 4 then 0x8000_0000 else 0xc000_0000_0000_0000
  {
    Pow2Small();
    Pow2Values();
    Pow2Add(2, 4); Pow2Add(6, 8); Pow2Add(14, 16); Pow2Add(30, 32);
    ShlIsTimes(TagOf(n), ValueBits(n));
  }

  /** Setting both bits above k of a word of k + 2 bits forgets what they were. */
  lemma {:induction false} OrTopTwo(v: nat, k: nat)
    requires v < Pow2(k + 2)
    ensures Or(Shl(3, k), v) == Shl(3, k) + Trunc(v, k)
    decreases k
  {
    if k == 0 {
      Pow2Small();
      OrEven(1, v);
      assert Or(1, v / 2) == 1 && Or(3, v) == 1 + 2 * Or(1, v / 2) by { assert Or(0, 0) == 0; }
    } else {
      OrTopTwo(v / 2, k - 1);
      OrEven(Shl(3, k - 1), v);
    }
  }

  /** The or of a value with its tag, for the three lengths that have one. */
  lemma {:induction false} Tagged(v: nat, n: nat, k: nat)
    requires k == ValueBits(Size(v)) && n == Size(v) > 1 && v < Pow2(k + 2)
    ensures Or(v, Shl(TagOf(n), k)) == Shl(TagOf(n), k) + Trunc(v, k)
  {
    OrCommutes(v, Shl(TagOf(n), k));
    if n == 8 {
      OrTopTwo(v, k);
    } else {
      SizeBound(v);
      OrBelow(TagOf(n), k, v);
      TruncIdentity(v, k);
    }
  }

  lemma {:induction false} SizeBound(v: nat)
    ensures Size(v) < 8 ==> v < Pow2(ValueBits(Size(v)))
    ensures v < Pow2(62) ==> v < Pow2(ValueBits(Size(v)))
  {
    TagValues(Size(v));
  }

  lemma {:induction false} FitsTwoMore(v: nat, n: nat, k: nat)
    requires v < TwoTo64 && n == Size(v) && k == ValueBits(n)
    ensures v < Pow2(k + 2)
  {
    SizeBound(v);
    Pow2Values();
    if n < 8 { Pow2Monotone(k, k + 2); }
  }

  lemma {:induction false} EncodedByte(v: nat)
    requires Size(v) == 1
    ensures EncodeVarint(v) == PutBytes(Shl(TagOf(1), ValueBits(1)) + Trunc(v, ValueBits(1)), 1)
  {
    TagValues(1);
    TruncIdentity(v, ValueBits(1));
    assert PutBytes(v, 1) == PutBytes(v / 256, 0) + [v % 256];
  }

  lemma {:induction false} EncodedOr(v: nat, n: nat, tag: nat)
    requires v < TwoTo64 && n == Size(v) > 1 && tag == Shl(TagOf(n), ValueBits(n))
    ensures EncodeVarint(v) == PutBytes(Or(v, tag), n)
  {
    TagValues(n);
  }

  /** What EncodeVarint writes, read as one big-endian number: the tag above the value. */
  lemma {:induction false} EncodedNumber(v: nat, n: nat, k: nat)
    requires v < TwoTo64 && n == Size(v) && k == ValueBits(n)
    ensures EncodeVarint(v) == PutBytes(Shl(TagOf(n), k) + Trunc(v, k), n)
  {
    if n == 1 {
      EncodedByte(v);
    } else {
      FitsTwoMore(v, n, k);
      Tagged(v, n, k);
      EncodedOr(v, n, Shl(TagOf(n), k));
    }
  }

  /** The tag of such a number, read back from its first byte. */
  lemma {:induction false} TagPart(q: nat, low: nat, n: nat, k: nat, x: nat)
    requires 1 <= n && k == ValueBits(n) && low < Pow2(k) && x == Shl(q, k) + low < Pow2(8 * n)
    ensures Shr(PutBytes(x, n)[0], 6) == q
  {
    FirstByte(x, n);
    ShrTwice(x, 8 * (n - 1), 6);
    OrBelow(q, k, low);
  }

  /** The tag and the value of such a number, read back from its bytes. */
  lemma {:induction false} NumberParts(q: nat, low: nat, n: nat, k: nat)
    requires 1 <= n && q < 4 && k == ValueBits(n) && low < Pow2(k)
    ensures var s := PutBytes(Shl(q, k) + low, n); Shr(s[0], 6) == q && Trunc(BigEndian(s), k) == low
  {
    WordBound(q, low, n);
    TagPart(q, low, n, k, Shl(q, k) + low);
    GetPut(Shl(q, k) + low, n);
    TruncBelow(q, k, low);
  }

  /** What the decoder does with a varint whose tag announces its own length. */
  lemma {:induction false} ReadTagged(s: seq<byte>, rest: seq<byte>, n: nat, k: nat)
    requires (n == 1 || n == 2 || n == 4 || n == 8) && |s| == n && Shr(s[0], 6) == TagOf(n) && k == ValueBits(n)
    ensures DecodeVarint(s + rest) == Some(Decoded(Trunc(BigEndian(s), k), n))
  {
    assert (s + rest)[..n] == s;
    if n == 1 { assert s[0] == BigEndian(s) by { assert s[..0] == [] && BigEndian([]) == 0; } }
  }

  lemma {:induction false} WordBound(q: nat, low: nat, n: nat)
    requires n >= 1 && q < 4 && low < Pow2(ValueBits(n))
    ensures Shl(q, ValueBits(n)) + low < Pow2(8 * n)
  {
    ShlIsTimes(q, ValueBits(n));
    Pow2Small();
    Pow2Add(2, ValueBits(n));
  }

  // ----- round trips -----

  /** What is decoded is the value modulo 2^62, so the round trip holds exactly below 2^62. */
  lemma {:induction false} DecodeEncode(v: nat, rest: seq<byte>)
    requires v < TwoTo64
    ensures DecodeVarint(EncodeVarint(v) + rest) == Some(Decoded(Trunc(v, 62), Size(v)))
    ensures Trunc(v, 62) == v <==> v < Pow2(62)
  {
    var n := Size(v);
    var k := ValueBits(n);
    EncodedNumber(v, n, k);
    TruncBound(v, k);
    NumberParts(TagOf(n), Trunc(v, k), n, k);
    ReadTagged(EncodeVarint(v), rest, n, k);
    KeptBits(v, k);
  }

  lemma {:induction false} KeptBits(v: nat, k: nat)
    requires k == ValueBits(Size(v))
    ensures Trunc(v, k) == Trunc(v, 62) && (Trunc(v, 62) == v <==> v < Pow2(62))
  {
    if v < Pow2(62) {
      SizeBound(v);
      TruncIdentity(v, 62);
      TruncIdentity(v, k);
    } else {
      TagValues(8);
      TruncBound(v, 62);
      assert k == 62;
    }
  }

  /** Decoding succeeds exactly when the announced bytes are there, and never consumes others. */
  lemma {:induction false} DecodeExtent(payload: seq<byte>)
    ensures DecodeVarint(payload).Some? <==> payload != [] && Announced(payload[0]) <= |payload|
    ensures DecodeVarint(payload).Some? ==>
      && DecodeVarint(payload).value.readLen == Announced(payload[0])
      && DecodeVarint(payload[..Announced(payload[0])]) == DecodeVarint(payload)
  {
    if payload != [] {
      TagBound(payload[0]);
      Pow2Small();
      var n := Announced(payload[0]);
      if n <= |payload| { assert payload[..n][..n] == payload[..n]; }
    }
  }

  /** A byte string is its tag above its value. */
  lemma {:induction false} WireParts(s: seq<byte>, n: nat, k: nat)
    requires 1 <= n == |s| && k == ValueBits(n)
    ensures s == PutBytes(Shl(Shr(s[0], 6), k) + Trunc(BigEndian(s), k), n) && Trunc(BigEndian(s), k) < Pow2(k)
  {
    var x := BigEndian(s);
    PutGet(s);
    FirstByte(x, n);
    ShrTwice(x, 8 * (n - 1), 6);
    SplitAt(x, k);
    TruncBound(x, k);
  }

  lemma {:induction false} TagOfAnnounced(first: byte)
    ensures TagOf(Announced(first)) == Shr(first, 6)
  {
    TagBound(first);
    Pow2Small();
  }

  /** The wire bytes are determined by the value and the length they use. */
  lemma {:induction false} DecodeInjective(s: seq<byte>, n: nat, k: nat)
    requires s != [] && n == |s| == Announced(s[0]) && k == ValueBits(n)
    ensures DecodeVarint(s).Some? && DecodeVarint(s).value.val < Pow2(k)
    ensures s == PutBytes(Shl(TagOf(n), k) + DecodeVarint(s).value.val, n)
  {
    assert s + [] == s;
    TagOfAnnounced(s[0]);
    ReadTagged(s, [], n, k);
    WireParts(s, n, k);
  }

  /** Re-encoding a decoded value gives the shortest form, and the same bytes exactly when
      they were the shortest already. */
  lemma {:induction false} EncodeDecode(payload: seq<byte>)
    requires DecodeVarint(payload).Some?
    ensures var d := DecodeVarint(payload).value;
      && d.val < VarintLimit && Size(d.val) <= d.readLen <= |payload|
      && (EncodeVarint(d.val) == payload[..d.readLen] <==> Size(d.val) == d.readLen)
  {
    var d := DecodeVarint(payload).value;
    var n := d.readLen;
    DecodeExtent(payload);
    var s, k := payload[..n], ValueBits(n);
    DecodeInjective(s, n, k);
    SizeWithin(d.val, n, k);
    ShortestAgain(d.val, s, n, k);
  }

  lemma {:induction false} ShortestAgain(v: nat, s: seq<byte>, n: nat, k: nat)
    requires (n == 1 || n == 2 || n == 4 || n == 8) && |s| == n && k == ValueBits(n)
    requires v < Pow2(k) && s == PutBytes(Shl(TagOf(n), k) + v, n)
    ensures v < TwoTo64 && Size(v) <= n && (EncodeVarint(v) == s <==> Size(v) == n)
  {
    SizeWithin(v, n, k);
    if Size(v) == n { ShortestForm(v, n, k); }
  }

  lemma {:induction false} ShortestForm(v: nat, n: nat, k: nat)
    requires v < TwoTo64 && n == Size(v) && k == ValueBits(n) && v < Pow2(k)
    ensures EncodeVarint(v) == PutBytes(Shl(TagOf(n), k) + v, n)
  {
    EncodedNumber(v, n, k);
    TruncIdentity(v, k);
  }

  lemma {:induction false} SizeWithin(v: nat, n: nat, k: nat)
    requires (n == 1 || n == 2 || n == 4 || n == 8) && k == ValueBits(n) && v < Pow2(k)
    ensures v < VarintLimit && Size(v) <= n
  {
    TagValues(n);
    Pow2Monotone(k, 62);
  }

  /** binary.BigEndian.PutUint16 and its wider fellows: n bytes, most significant first. */
  method PutUint(b: array<byte>, at: nat, x: nat, n: nat)
    requires at + n <= b.Length
    modifies b
    ensures b[at..at + n] == PutBytes(x, n)
    ensures forall i | 0 <= i < b.Length && !(at <= i < at + n) :: b[i] == old(b[i])
  {
    var left, k := x, n;
    ghost var all := PutBytes(x, n);
    assert all[..n] == all;
    while k > 0
      invariant 0 <= k <= n && all[..k] == PutBytes(left, k)
      invariant forall i | k <= i < n :: b[at + i] == all[i]
      invariant forall i | 0 <= i < b.Length && !(at + k <= i < at + n) :: b[i] == old(b[i])
    {
      k := k - 1;
      assert all[k] == left % 256 && all[..k] == PutBytes(left / 256, k) by { LastByte(all, left, k + 1); }
      b[at + k] := left % 256;
      left := left / 256;
    }
  }

  lemma {:induction false} LastByte(all: seq<byte>, x: nat, k: nat)
    requires 0 < k <= |all| && all[..k] == PutBytes(x, k)
    ensures all[k - 1] == x % 256 && all[..k - 1] == PutBytes(x / 256, k - 1)
  {
    assert all[..k][..k - 1] == all[..k - 1] && all[..k][k - 1] == all[k - 1];
  }

  /** Writes v at the start of b[at..]; the caller leaves room, or the slice expression panics. */
  method EncodeVarintSlice(v: nat, b: array<byte>, at: nat) returns (n: nat)
    requires v < TwoTo64 && at + Size(v) <= b.Length
    modifies b
    ensures n == Size(v)
    ensures b[..at + n] == old(b[..at]) + EncodeVarint(v)
    ensures forall i | at + n <= i < b.Length :: b[i] == old(b[i])
  {
    if v < 0x40 {
      b[at] := v;
      n := 1;
    } else if v < 0x4000 {
      n := 2;
      PutUint(b, at, Or(v, 0x4000), n);
    } else if v < 0x4000_0000 {
      n := 4;
      PutUint(b, at, Or(v, 0x8000_0000), n);
    } else {
      n := 8;
      PutUint(b, at, Or(v, 0xc000_0000_0000_0000), n);
    }
    assert b[at..at + n] == EncodeVarint(v);
    assert b[..at + n] == b[..at] + b[at..at + n];
  }
}
