/**
  The Packet Too Big builders (tunnel/masque/icmp.go). The output buffer is filled
  field by field; checksums are computed last, over the filled buffer.
*/
module Icmp {
  import opened Words
  import opened Checksum

  datatype Error = InvalidIPHeader | MTUTooSmall
  datatype Result = Ok(out: seq<byte>) | Err(error: Error)

  function Min(a: nat, b: nat): nat { if a < b then a else b }

  /** Length of the quote in an ICMPv4 error: at least 128 bytes, at most 500, in whole words. */
  function QuoteLength4(n: nat): (q: nat)
    ensures 128 <= q <= 500 && q % 4 == 0
    ensures n <= 500 ==> n <= q && (n >= 128 ==> q < n + 4)
  {
    (Min(if n > 128 then n else 128, 500) + 3) / 4 * 4
  }

  /** Byte i of the IPv4 header: addresses swapped, total length, TTL 64, protocol ICMP. */
  function Header4(packet: seq<byte>, total: nat, csum: nat, i: nat): byte
    requires |packet| >= 20 && total < 0x1_0000 && csum < 0x1_0000
  {
    if i == 0 then 0x45
    else if i == 2 then total / 256
    else if i == 3 then total % 256
    else if i == 8 then 64
    else if i == 9 then 1
    else if i == 10 then csum / 256
    else if i == 11 then csum % 256
    else if 12 <= i < 16 then packet[i + 4]
    else if 16 <= i < 20 then packet[i - 4]
    else 0
  }

  /** Byte i of the ICMPv4 message: type 3 code 4, quote length in words, next-hop MTU, the quote. */
  function Message4(packet: seq<byte>, mtu: nat, csum: nat, i: nat): byte
    requires mtu < 0x1_0000 && csum < 0x1_0000
  {
    if i == 0 then 3
    else if i == 1 then 4
    else if i == 2 then csum / 256
    else if i == 3 then csum % 256
    else if i == 5 then QuoteLength4(|packet|) / 4
    else if i == 6 then mtu / 256
    else if i == 7 then mtu % 256
    else if 8 <= i < 8 + Min(|packet|, 500) then packet[i - 8]
    else 0
  }

  method PutUint16(out: array<byte>, at: nat, w: nat)
    requires at + 2 <= out.Length && w < 0x1_0000
    modifies out
    ensures out[at] == w / 256 && out[at + 1] == w % 256
    ensures forall i | 0 <= i < out.Length && i != at && i != at + 1 :: out[i] == old(out[i])
  {
    out[at] := w / 256;
    out[at + 1] := w % 256;
  }

  method CopyTo(out: array<byte>, at: nat, src: seq<byte>)
    requires at + |src| <= out.Length
    modifies out
    ensures forall i | at <= i < at + |src| :: out[i] == src[i - at]
    ensures forall i | 0 <= i < out.Length && !(at <= i < at + |src|) :: out[i] == old(out[i])
  {
    for k := 0 to |src|
      invariant forall i | at <= i < at + k :: out[i] == src[i - at]
      invariant forall i | 0 <= i < out.Length && !(at <= i < at + k) :: out[i] == old(out[i])
    {
      out[at + k] := src[k];
    }
  }

  method FillHeader4(out: array<byte>, packet: seq<byte>)
    requires |packet| >= 20 && 20 <= out.Length < 0x1_0000 && forall i | 0 <= i < 20 :: out[i] == 0
    modifies out
    ensures forall i | 0 <= i < 20 :: out[i] == Header4(packet, out.Length, 0, i)
    ensures forall i | 20 <= i < out.Length :: out[i] == old(out[i])
  {
    out[0] := 0x45;
    PutUint16(out, 2, out.Length);
    out[8] := 64;
    out[9] := 1;
    CopyTo(out, 12, packet[16..20]);
    CopyTo(out, 16, packet[12..16]);
  }

  method FillMessage4(out: array<byte>, packet: seq<byte>, mtu: nat)
    requires mtu < 0x1_0000 && out.Length == 28 + QuoteLength4(|packet|) && forall i | 20 <= i < out.Length :: out[i] == 0
    modifies out
    ensures forall i | 0 <= i < 20 :: out[i] == old(out[i])
    ensures forall i | 20 <= i < out.Length :: out[i] == Message4(packet, mtu, 0, i - 20)
  {
    out[20] := 3;
    out[21] := 4;
    out[25] := (out.Length - 28) / 4;
    PutUint16(out, 26, mtu);
    CopyTo(out, 28, packet[..Min(|packet|, 500)]);
  }

  /** A message with a zero word at 2j, and the same message with its checksum there. */
  lemma {:induction false} Sealed(zeroed: seq<byte>, out: seq<byte>, pseudo: nat, j: nat, c: nat)
    requires |zeroed| == |out| <= 2000 && 2 * j + 2 <= |out| && pseudo < 0x20_0000
    requires zeroed[2 * j] == 0 && zeroed[2 * j + 1] == 0
    requires c == Complement(pseudo + TailSum(zeroed, 0))
    requires out[2 * j] == c / 256 && out[2 * j + 1] == c % 256
    requires forall i | 0 <= i < |out| && i != 2 * j && i != 2 * j + 1 :: out[i] == zeroed[i]
    ensures Accepts(pseudo + TailSum(out, 0))
  {
    assert Word(out, 2 * j) == c && Word(zeroed, 2 * j) == 0;
    StoredChecksumAccepted(zeroed, out, pseudo, j);
  }

  method SealAt(out: array<byte>, from: nat, end: nat, j: nat) returns (c: nat)
    requires from <= end <= out.Length <= 2000 && from + 2 * j + 2 <= end
    requires out[from + 2 * j] == 0 && out[from + 2 * j + 1] == 0
    modifies out
    ensures c < 0x1_0000 && out[from + 2 * j] == c / 256 && out[from + 2 * j + 1] == c % 256
    ensures forall i | 0 <= i < out.Length && i != from + 2 * j && i != from + 2 * j + 1 :: out[i] == old(out[i])
    ensures Accepts(TailSum(out[from..end], 0))
  {
    ghost var zeroed := out[from..end];
    c := CalculateInternetChecksum(out[from..end]);
    PutUint16(out, from + 2 * j, c);
    Sealed(zeroed, out[from..end], 0, j, c);
  }

  method BuildICMPPacketTooBig4(packet: seq<byte>, nextHopMTU: nat) returns (r: Result)
    requires nextHopMTU < 0x1_0000
    ensures r.Err? <==> |packet| < 20 || packet[0] / 16 != 4 || nextHopMTU < 68 || |packet| < (packet[0] as int % 16) * 4
    ensures r.Err? ==>
      r.error == if |packet| >= 20 && packet[0] / 16 == 4 && nextHopMTU < 68 then MTUTooSmall else InvalidIPHeader
    ensures r.Ok? ==>
      && |r.out| == 28 + QuoteLength4(|packet|)
      && (forall i | 0 <= i < 20 :: r.out[i] == Header4(packet, |r.out|, Word(r.out, 10), i))
      && (forall i | 20 <= i < |r.out| :: r.out[i] == Message4(packet, nextHopMTU, Word(r.out, 22), i - 20))
      && Accepts(TailSum(r.out[0..20], 0)) && Accepts(TailSum(r.out[20..|r.out|], 0))
  {
    if |packet| < 20 || packet[0] / 16 != 4 { return Err(InvalidIPHeader); }
    if nextHopMTU < 68 { return Err(MTUTooSmall); }
    if |packet| < (packet[0] as int % 16) * 4 { return Err(InvalidIPHeader); }
    var originalLen := Min(if |packet| > 128 then |packet| else 128, 500);
    var paddedLen := (originalLen + 3) / 4 * 4;
    var out := new byte[20 + 8 + paddedLen](_ => 0);
    FillHeader4(out, packet);
    FillMessage4(out, packet, nextHopMTU);
    ghost var zeroed := out[..];
    Seal4(out);
    var s := out[..];
    SealedBytes4(packet, nextHopMTU, zeroed, s);
    assert s[0..20] == out[0..20] && s[20..|s|] == out[20..out.Length];
    r := Ok(s);
  }

  lemma {:induction false} SealedBytes4(packet: seq<byte>, mtu: nat, zeroed: seq<byte>, s: seq<byte>)
    requires |packet| >= 20 && mtu < 0x1_0000 && |zeroed| == |s| == 28 + QuoteLength4(|packet|)
    requires forall i | 0 <= i < 20 :: zeroed[i] == Header4(packet, |s|, 0, i)
    requires forall i | 20 <= i < |s| :: zeroed[i] == Message4(packet, mtu, 0, i - 20)
    requires forall i | 0 <= i < |s| && i != 10 && i != 11 && i != 22 && i != 23 :: s[i] == zeroed[i]
    ensures forall i | 0 <= i < 20 :: s[i] == Header4(packet, |s|, Word(s, 10), i)
    ensures forall i | 20 <= i < |s| :: s[i] == Message4(packet, mtu, Word(s, 22), i - 20)
  {
  }

  /** Both checksums, each over its own part of the packet. */
  method Seal4(out: array<byte>)
    requires 28 <= out.Length <= 2000 && out[10] == 0 && out[11] == 0 && out[22] == 0 && out[23] == 0
    modifies out
    ensures forall i | 0 <= i < out.Length && i != 10 && i != 11 && i != 22 && i != 23 :: out[i] == old(out[i])
    ensures Accepts(TailSum(out[0..20], 0)) && Accepts(TailSum(out[20..out.Length], 0))
  {
    var c1 := SealAt(out, 0, 20, 5);
    ghost var header := out[0..20];
    var c2 := SealAt(out, 20, out.Length, 1);
    assert out[0..20] == header;
  }

  // ----- IPv6 -----

  /** Byte i of an ICMPv6 Packet Too Big packet: header, type 2, MTU, up to 1200 quoted bytes. */
  function Byte6(packet: seq<byte>, mtu: nat, csum: nat, i: nat): byte
    requires |packet| >= 40 && mtu < TwoTo32 && csum < 0x1_0000
  {
    if i == 0 then 0x60
    else if i == 4 then (8 + Min(|packet|, 1200)) / 256
    else if i == 5 then (8 + Min(|packet|, 1200)) % 256
    else if i == 6 then 58
    else if i == 7 then 64
    else if 8 <= i < 24 then packet[i + 16]
    else if 24 <= i < 40 then packet[i - 16]
    else if i == 40 then 2
    else if i == 42 then csum / 256
    else if i == 43 then csum % 256
    else if i == 44 then mtu / 0x100_0000
    else if i == 45 then mtu / 0x1_0000 % 256
    else if i == 46 then mtu / 0x100 % 256
    else if i == 47 then mtu % 256
    else if 48 <= i < 48 + Min(|packet|, 1200) then packet[i - 48]
    else 0
  }

  method FillHeader6(out: array<byte>, packet: seq<byte>, mtu: nat)
    requires |packet| >= 40 && mtu < TwoTo32 && out.Length == 48 + Min(|packet|, 1200)
    requires forall i | 0 <= i < 40 :: out[i] == 0
    modifies out
    ensures forall i | 0 <= i < 40 :: out[i] == Byte6(packet, mtu, 0, i)
    ensures forall i | 40 <= i < out.Length :: out[i] == old(out[i])
  {
    out[0] := 0x60;
    PutUint16(out, 4, 8 + (out.Length - 48));
    out[6] := 58;
    out[7] := 64;
    CopyTo(out, 8, packet[24..40]);
    CopyTo(out, 24, packet[8..24]);
  }

  lemma {:induction false} FourBytes(mtu: nat)
    ensures mtu / 0x1_0000 / 256 == mtu / 0x100_0000 && mtu % 0x1_0000 / 256 == mtu / 0x100 % 256
    ensures mtu % 0x1_0000 % 256 == mtu % 256
  {
    var a, b := mtu / 0x1_0000, mtu % 0x1_0000;
    Bytes(a, a / 256, a % 256);
    Bytes(b, b / 256, b % 256);
    Digits(mtu, a, a / 256, a % 256, b, b / 256, b % 256);
  }

  lemma {:induction false} Bytes(x: nat, hi: nat, lo: nat)
    requires hi == x / 256 && lo == x % 256
    ensures x == 256 * hi + lo && lo < 256 && (x < 0x1_0000 ==> hi < 256)
  {
  }

  /** A number from its digits in base 256, and its quotients from the same digits. */
  lemma {:induction false} Digits(x: nat, a: nat, a1: nat, a0: nat, b: nat, b1: nat, b0: nat)
    requires x == 0x1_0000 * a + b && b < 0x1_0000 && a == 256 * a1 + a0 && a0 < 256 && b == 256 * b1 + b0 && b1 < 256 && b0 < 256
    ensures x / 0x100_0000 == a1 && x / 0x100 % 256 == b1 && x % 256 == b0 && x / 0x1_0000 == a && x % 0x1_0000 == b
  {
    Quotient(x, 0x100_0000, a1, 0x1_0000 * a0 + b);
    Quotient(x, 0x100, 256 * a + b1, b0);
    Quotient(256 * a + b1, 256, a, b1);
    Quotient(x, 0x1_0000, a, b);
  }

  lemma {:induction false} Quotient(x: nat, d: nat, q: nat, r: nat)
    requires 0 < d && x == d * q + r && r < d
    ensures x / d == q && x % d == r
  {
    var q', r' := x / d, x % d;
    assert x == d * q' + r';
    if q' < q { Multiples(d, q', q); }
    if q < q' { Multiples(d, q, q'); }
  }

  lemma {:induction false} Multiples(d: nat, a: nat, b: nat)
    requires a < b
    ensures d * a + d <= d * b
  {
    assert d * b == d * (a + 1) + d * (b - a - 1);
  }

  method FillMessage6(out: array<byte>, packet: seq<byte>, mtu: nat)
    requires |packet| >= 40 && mtu < TwoTo32 && out.Length == 48 + Min(|packet|, 1200)
    requires forall i | 40 <= i < out.Length :: out[i] == 0
    modifies out
    ensures forall i | 0 <= i < 40 :: out[i] == old(out[i])
    ensures forall i | 40 <= i < out.Length :: out[i] == Byte6(packet, mtu, 0, i)
  {
    FourBytes(mtu);
    out[40] := 2;
    PutUint16(out, 44, mtu / 0x1_0000);
    PutUint16(out, 46, mtu % 0x1_0000);
    CopyTo(out, 48, packet[..out.Length - 48]);
  }

  /** The pseudo-header: both addresses, the message length in 32 bits, next header 58. */
  function Pseudo6(addresses: seq<byte>, length: nat): (s: nat)
    requires |addresses| == 32
  {
    WordSum(addresses, 0, 16) + length % TwoTo32 / 0x1_0000 + length % 0x1_0000 + 58
  }

  /** calculateICMPv6Checksum: the 40-byte pseudo-header, then the message. */
  method CalculateICMPv6Checksum(addresses: seq<byte>, message: seq<byte>) returns (c: nat)
    requires |addresses| == 32
    ensures c == Complement(Pseudo6(addresses, |message|) + TailSum(message, 0)) && c < 0x1_0000
  {
    var n := |message| % TwoTo32;
    var ph: seq<byte> := addresses + [n / 0x100_0000, n / 0x1_0000 % 256, n / 256 % 256, n % 256, 0, 0, 0, 58];
    var sum := 0;
    var i := 0;
    while i < 40
      invariant 0 <= i <= 40 && i % 2 == 0
      invariant sum == WordSum(ph, 0, i / 2) && sum <= 0xffff * i
    {
      sum := sum + Word(ph, i);
      i := i + 2;
    }
    PseudoBytes(addresses, ph, |message|, n);
    sum := SumTail(message, 0, sum);
    c := FoldSum(sum);
  }

  lemma {:induction false} PseudoBytes(addresses: seq<byte>, ph: seq<byte>, length: nat, n: nat)
    requires |addresses| == 32 && n == length % TwoTo32
    requires ph == addresses + [n / 0x100_0000, n / 0x1_0000 % 256, n / 256 % 256, n % 256, 0, 0, 0, 58]
    ensures WordSum(ph, 0, 20) == Pseudo6(addresses, length)
  {
    WordSumPrefix(addresses, ph, 16);
    HalfWords(length, n);
    assert Word(ph, 32) == n / 0x1_0000 && Word(ph, 34) == n % 0x1_0000 && Word(ph, 36) == 0 && Word(ph, 38) == 58;
    assert WordSum(ph, 0, 17) == WordSum(ph, 0, 16) + n / 0x1_0000;
    assert WordSum(ph, 0, 18) == WordSum(ph, 0, 17) + n % 0x1_0000;
    assert WordSum(ph, 0, 19) == WordSum(ph, 0, 18);
  }

  lemma {:induction false} HalfWords(length: nat, n: nat)
    requires n == length % TwoTo32
    ensures n / 0x100_0000 < 256 && n / 0x100_0000 * 256 + n / 0x1_0000 % 256 == n / 0x1_0000
    ensures n / 256 % 256 * 256 + n % 256 == n % 0x1_0000 == length % 0x1_0000
  {
    FourBytes(n);
    var a, b := n / 0x1_0000, n % 0x1_0000;
    Bytes(a, a / 256, a % 256);
    Bytes(b, b / 256, b % 256);
    Quotient(length, 0x1_0000, 0x1_0000 * (length / TwoTo32) + a, b);
  }

  lemma {:induction false} WordSumPrefix(p: seq<byte>, q: seq<byte>, k: nat)
    requires 2 * k <= |p| <= |q| && q[..|p|] == p
    ensures WordSum(q, 0, k) == WordSum(p, 0, k)
  {
    if k > 0 {
      WordSumPrefix(p, q, k - 1);
      assert q[2 * (k - 1)] == q[..|p|][2 * (k - 1)] && q[2 * (k - 1) + 1] == q[..|p|][2 * (k - 1) + 1];
    }
  }

  method Seal6(out: array<byte>) returns (c: nat)
    requires 48 <= out.Length < 2000 && out[42] == 0 && out[43] == 0
    modifies out
    ensures c < 0x1_0000 && out[42] == c / 256 && out[43] == c % 256
    ensures forall i | 0 <= i < out.Length && i != 42 && i != 43 :: out[i] == old(out[i])
    ensures Accepts(Pseudo6(out[8..40], out.Length - 40) + TailSum(out[40..out.Length], 0))
  {
    var addresses, zeroed := out[8..40], out[40..out.Length];
    c := CalculateICMPv6Checksum(addresses, zeroed);
    PutUint16(out, 42, c);
    assert out[8..40] == addresses;
    WordSumBound(addresses, 0, 16);
    Sealed(zeroed, out[40..out.Length], Pseudo6(addresses, out.Length - 40), 1, c);
  }

  method BuildICMPPacketTooBig6(packet: seq<byte>, nextHopMTU: nat) returns (r: Result)
    requires nextHopMTU < TwoTo32
    ensures r.Err? <==> |packet| < 40 || packet[0] / 16 != 6 || nextHopMTU < 1280
    ensures r.Err? ==> r.error == if |packet| >= 40 && packet[0] / 16 == 6 then MTUTooSmall else InvalidIPHeader
    ensures r.Ok? ==>
      && |r.out| == 48 + Min(|packet|, 1200)
      && (forall i | 0 <= i < |r.out| :: r.out[i] == Byte6(packet, nextHopMTU, Word(r.out, 42), i))
      && Word(r.out, 4) == |r.out| - 40
      && Accepts(Pseudo6(r.out[8..40], |r.out| - 40) + TailSum(r.out[40..|r.out|], 0))
  {
    if |packet| < 40 || packet[0] / 16 != 6 { return Err(InvalidIPHeader); }
    if nextHopMTU < 1280 { return Err(MTUTooSmall); }
    var originalLen := Min(|packet|, 1200);
    var out := new byte[40 + 8 + originalLen](_ => 0);
    FillHeader6(out, packet, nextHopMTU);
    FillMessage6(out, packet, nextHopMTU);
    var c := Seal6(out);
    var s := out[..];
    assert s[8..40] == out[8..40] && s[40..|s|] == out[40..out.Length];
    r := Ok(s);
  }
}
