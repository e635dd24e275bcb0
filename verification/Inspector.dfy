/** Header inspection by IP version (tunnel/masque/ip_inspector.go). */
module Inspector {
  import opened Words
  import opened Ipam

  function ExtractDestIP(packet: seq<byte>): Addr {
    if |packet| == 0 then Invalid
    else if packet[0] / 16 == 4 && |packet| >= 20 then V4(BigEndian(packet[16..20]))
    else if packet[0] / 16 == 6 && |packet| >= 40 then V6(BigEndian(packet[24..40]))
    else Invalid
  }

  function ExtractSrcIP(packet: seq<byte>): Addr {
    if |packet| == 0 then Invalid
    else if packet[0] / 16 == 4 && |packet| >= 20 then V4(BigEndian(packet[12..16]))
    else if packet[0] / 16 == 6 && |packet| >= 40 then V6(BigEndian(packet[8..24]))
    else Invalid
  }

  /** A packet shows a source exactly when it shows a destination, of the same family. */
  lemma {:induction false} SourceWithDestination(packet: seq<byte>)
    ensures ExtractSrcIP(packet).Invalid? == ExtractDestIP(packet).Invalid?
    ensures ExtractSrcIP(packet).V4? == ExtractDestIP(packet).V4?
  {
  }

  // ----- the octets of a header -----

  /** A packet of the given version: what comes before the addresses, the source, the destination. */
  ghost predicate Consists(packet: seq<byte>, version: nat, front: seq<byte>, src: seq<byte>, dst: seq<byte>, rest: seq<byte>) {
    && packet == front + src + dst + rest && |src| == |dst|
    && front != [] && front[0] / 16 == version
    && ((version == 4 && |front| == 12 && |src| == 4) || (version == 6 && |front| == 8 && |src| == 16))
  }

  /** The addresses are read where RFC 791 and RFC 8200 have them: the source first, the destination
      behind it. */
  lemma {:induction false} ReadsAddresses(packet: seq<byte>, version: nat, front: seq<byte>, src: seq<byte>, dst: seq<byte>, rest: seq<byte>)
    requires Consists(packet, version, front, src, dst, rest)
    ensures ExtractSrcIP(packet) == if version == 4 then V4(BigEndian(src)) else V6(BigEndian(src))
    ensures ExtractDestIP(packet) == if version == 4 then V4(BigEndian(dst)) else V6(BigEndian(dst))
  {
    var a, b, c := |front|, |front| + |src|, |front| + |src| + |dst|;
    assert packet[0] == front[0] && packet[a..b] == src && packet[b..c] == dst;
  }

  function Width(a: Addr): nat { if a.V4? then 4 else if a.V6? then 16 else 0 }

  /** An address as it stands in a header, most significant octet first. */
  function Octets(a: Addr): seq<byte> { if a.Invalid? then [] else PutBytes(a.n, Width(a)) }

  predicate InRange(a: Addr) { !a.Invalid? && a.n < Pow2(8 * Width(a)) }

  /** The packet's own octets name src as its source and dst as its destination. */
  ghost predicate Carries(packet: seq<byte>, src: Addr, dst: Addr) {
    && InRange(src) && InRange(dst)
    && exists version, front, rest :: Consists(packet, version, front, Octets(src), Octets(dst), rest) && (version == 4 <==> src.V4?)
  }

  lemma {:induction false} CarriedIsExtracted(packet: seq<byte>, src: Addr, dst: Addr)
    requires Carries(packet, src, dst)
    ensures ExtractSrcIP(packet) == src && ExtractDestIP(packet) == dst
  {
    var version, front, rest :| Consists(packet, version, front, Octets(src), Octets(dst), rest) && (version == 4 <==> src.V4?);
    ReadsAddresses(packet, version, front, Octets(src), Octets(dst), rest);
    GetPut(src.n, Width(src));
    GetPut(dst.n, Width(dst));
  }

  lemma {:induction false} ExtractedIsCarried(packet: seq<byte>)
    requires ExtractSrcIP(packet) != Invalid
    ensures Carries(packet, ExtractSrcIP(packet), ExtractDestIP(packet))
  {
    var v4 := packet[0] / 16 == 4;
    var a, n := if v4 then 12 else 8, if v4 then 4 else 16;
    var s, d := packet[a..a + n], packet[a + n..a + 2 * n];
    FourParts(packet, a, a + n, a + 2 * n);
    PutGet(s);
    PutGet(d);
    var src, dst := ExtractSrcIP(packet), ExtractDestIP(packet);
    assert Octets(src) == s && Octets(dst) == d;
    assert Consists(packet, if v4 then 4 else 6, packet[..a], Octets(src), Octets(dst), packet[a + 2 * n..]);
  }

  lemma {:induction false} FourParts(s: seq<byte>, a: nat, b: nat, c: nat)
    requires a <= b <= c <= |s|
    ensures s == s[..a] + s[a..b] + s[b..c] + s[c..]
  {
  }

  /** What is extracted is what the packet carries, and a packet that carries no two addresses shows
      none. */
  lemma {:induction false} ExtractedExactly(packet: seq<byte>, src: Addr, dst: Addr)
    ensures Carries(packet, src, dst) <==> ExtractSrcIP(packet) == src && ExtractDestIP(packet) == dst && src != Invalid
  {
    if Carries(packet, src, dst) {
      CarriedIsExtracted(packet, src, dst);
    } else if ExtractSrcIP(packet) == src && ExtractDestIP(packet) == dst && src != Invalid {
      ExtractedIsCarried(packet);
    }
  }
}
