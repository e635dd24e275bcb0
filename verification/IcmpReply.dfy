/**
  What the Packet Too Big replies say (tunnel/masque/icmp.go): they go back to the sender of the
  packet that was too big, in the name of its destination, and quote it.
*/
module IcmpReply {
  import opened Words
  import opened Checksum
  import opened Icmp
  import opened Inspector

  lemma {:induction false} SameAddress(a: seq<byte>, i: nat, b: seq<byte>, j: nat, n: nat)
    requires i + n <= |a| && j + n <= |b| && forall k | i <= k < i + n :: a[k] == b[k - i + j]
    ensures a[i..i + n] == b[j..j + n]
  {
  }

  /** An IPv4 reply: addressed from the packet's destination to its source, of its own length, with
      the next hop's MTU, quoting the packet up to 500 bytes and padded with zeros to a length in
      whole words. */
  lemma {:induction false} Reply4(packet: seq<byte>, mtu: nat, out: seq<byte>, c1: nat, c2: nat)
    requires |packet| >= 20 && packet[0] / 16 == 4 && mtu < 0x1_0000 && c1 < 0x1_0000 && c2 < 0x1_0000
    requires |out| == 28 + QuoteLength4(|packet|)
    requires forall i | 0 <= i < 20 :: out[i] == Header4(packet, |out|, c1, i)
    requires forall i | 20 <= i < |out| :: out[i] == Message4(packet, mtu, c2, i - 20)
    ensures ExtractSrcIP(out) == ExtractDestIP(packet) != Ipam.Invalid && ExtractDestIP(out) == ExtractSrcIP(packet)
    ensures Word(out, 2) == |out| && out[9] == 1 && out[20] == 3 && out[21] == 4
    ensures Word(out, 26) == mtu && 28 + 4 * out[25] as nat == |out|
    ensures var n := if |packet| < 500 then |packet| else 500;
      out[28..28 + n] == packet[..n] && forall i | 28 + n <= i < |out| :: out[i] == 0
  {
    var n := if |packet| < 500 then |packet| else 500;
    SameAddress(out, 12, packet, 16, 4);
    SameAddress(out, 16, packet, 12, 4);
    assert out[0] == 0x45;
    SameAddress(out, 28, packet, 0, n);
    assert packet[0..n] == packet[..n];
  }

  /** An IPv6 reply, quoting up to 1200 bytes. */
  lemma {:induction false} Reply6(packet: seq<byte>, mtu: nat, out: seq<byte>, c: nat)
    requires |packet| >= 40 && packet[0] / 16 == 6 && mtu < TwoTo32 && c < 0x1_0000
    requires |out| == 48 + Icmp.Min(|packet|, 1200) && forall i | 0 <= i < |out| :: out[i] == Byte6(packet, mtu, c, i)
    ensures ExtractSrcIP(out) == ExtractDestIP(packet) != Ipam.Invalid && ExtractDestIP(out) == ExtractSrcIP(packet)
    ensures Word(out, 4) == |out| - 40 && out[6] == 58 && out[40] == 2 && out[41] == 0
    ensures 0x1_0000 * Word(out, 44) + Word(out, 46) == mtu
    ensures out[48..] == packet[..if |packet| < 1200 then |packet| else 1200]
  {
    var n := if |packet| < 1200 then |packet| else 1200;
    SameAddress(out, 8, packet, 24, 16);
    SameAddress(out, 24, packet, 8, 16);
    assert out[0] == 0x60;
    SameAddress(out, 48, packet, 0, n);
    assert out[48..48 + n] == out[48..] && packet[0..n] == packet[..n];
    FourBytes(mtu);
  }
}
