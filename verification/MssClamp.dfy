/**
  TCP MSS clamping in place (tunnel/masque/bridge.go): the packet buffer is
  rewritten by index, first the MSS option, then the TCP checksum.
*/
module MssClamp {
  import opened Optional
  import opened Words
  import opened Checksum

  /** Where the TCP header starts, and the largest MSS the tunnel allows (a uint16). */
  datatype Layout = Layout(version: nat, ipHdrLen: nat, maxMSS: nat)

  function Version(p: seq<byte>): nat
    requires |p| > 0
  {
    p[0] as int / 16
  }

  /** calculateMaxMSS; the limit is converted to 16 bits. */
  function CalculateMaxMSS(p: seq<byte>, maxMTU: int): (r: Option<Layout>)
    requires |p| >= 20 && maxMTU > 40
    ensures r.Some? ==> r.value.ipHdrLen % 4 == 0 && r.value.ipHdrLen + 20 <= |p| && r.value.maxMSS < 0x1_0000
    ensures r.Some? ==> r.value.version == 4 || (r.value.version == 6 && r.value.ipHdrLen == 40)
  {
    if Version(p) == 4 then
      var ipHdrLen := (p[0] as int % 16) * 4;
      if |p| < ipHdrLen + 20 || p[9] != 6 then None
      else Some(Layout(4, ipHdrLen, (maxMTU - 40) % 0x1_0000))
    else if Version(p) == 6 then
      if |p| < 60 || p[6] != 6 || maxMTU <= 60 then None
      else Some(Layout(6, 40, (maxMTU - 60) % 0x1_0000))
    else None
  }

  /** The options of a TCP SYN: the bytes from .from up to .to. */
  datatype Options = Options(layout: Layout, from: nat, end: nat)

  function SynOptions(p: seq<byte>, maxMTU: int): (r: Option<Options>)
    ensures r.Some? ==> r.value.from <= r.value.end <= |p| && r.value.from == r.value.layout.ipHdrLen + 20
    ensures r.Some? ==> |p| >= 20 && maxMTU > 40 && CalculateMaxMSS(p, maxMTU) == Some(r.value.layout)
  {
    if |p| < 20 || maxMTU <= 40 then None
    else match CalculateMaxMSS(p, maxMTU)
      case None => None
      case Some(l) =>
        var dataOffset := (p[l.ipHdrLen + 12] as int / 16) * 4;
        if p[l.ipHdrLen + 13] as int / 2 % 2 == 0 || |p| - l.ipHdrLen < dataOffset || dataOffset < 20 then None
        else Some(Options(l, l.ipHdrLen + 20, l.ipHdrLen + dataOffset))
  }

  /** Offset of the first well-formed MSS option at or after i, walking option by option. */
  function FindMSS(p: seq<byte>, i: nat, end: nat): (r: Option<nat>)
    requires i <= end <= |p|
    ensures r.Some? ==> i <= r.value && r.value + 4 <= end && p[r.value] == 2 && p[r.value + 1] == 4
    decreases |p| - i
  {
    if i >= end || p[i] == 0 then None
    else if p[i] == 1 then FindMSS(p, i + 1, end)
    else if i + 1 >= end || p[i + 1] < 2 || i + p[i + 1] as int > end then None
    else if p[i] == 2 && p[i + 1] == 4 then Some(i)
    else FindMSS(p, i + p[i + 1] as int, end)
  }

  /** Where and how to write: the option at .at of the segment at .h gets at most .limit. */
  datatype Edit = Edit(version: nat, h: nat, limit: nat, at: nat) {
    predicate Fits(n: nat) {
      && (version == 4 || (version == 6 && h == 40))
      && h % 4 == 0 && h + 20 <= at && at + 4 <= n && limit < 0x1_0000
    }
  }

  /** The first MSS option of a TCP SYN packet, if the clamp gets to look at one. */
  function Target(p: seq<byte>, maxMTU: int): (r: Option<Edit>)
    ensures r.Some? ==> r.value.Fits(|p|)
  {
    match SynOptions(p, maxMTU)
    case None => None
    case Some(o) =>
      match FindMSS(p, o.from, o.end)
      case None => None
      case Some(at) => Some(Edit(o.layout.version, o.layout.ipHdrLen, o.layout.maxMSS, at))
  }

  function Put16(p: seq<byte>, i: nat, w: nat): (q: seq<byte>)
    requires i + 2 <= |p| && w < 0x1_0000
    ensures |q| == |p| && Word(q, i) == w
  {
    p[i := w / 256][i + 1 := w % 256]
  }

  /** Sum of the pseudo-header for a TCP segment starting at h. */
  function PseudoSum(p: seq<byte>, version: nat, h: nat): nat
    requires |p| >= 20 && h <= |p| && (version != 4 ==> |p| >= 40)
  {
    (if version == 4 then WordSum(p, 12, 4) else WordSum(p, 8, 16)) + 6 + (|p| - h) % TwoTo32
  }

  function SegmentSum(p: seq<byte>, version: nat, h: nat): nat
    requires |p| >= 20 && h <= |p| && (version != 4 ==> |p| >= 40)
  {
    PseudoSum(p, version, h) + TailSum(p, h)
  }

  /** A receiver's test of the TCP checksum. */
  predicate TcpAccepts(p: seq<byte>, version: nat, h: nat)
    requires |p| >= 20 && h <= |p| && (version != 4 ==> |p| >= 40)
  {
    Accepts(SegmentSum(p, version, h))
  }

  function WithChecksum(p: seq<byte>, version: nat, h: nat): (q: seq<byte>)
    requires h + 20 <= |p| && (version != 4 ==> |p| >= 40)
    ensures |q| == |p|
  {
    var zeroed := Put16(p, h + 16, 0);
    Put16(zeroed, h + 16, Complement(SegmentSum(zeroed, version, h)))
  }

  function Rewritten(p: seq<byte>, e: Edit): (q: seq<byte>)
    requires e.Fits(|p|)
    ensures |q| == |p|
  {
    WithChecksum(Put16(p, e.at + 2, e.limit), e.version, e.h)
  }

  /** The whole clamp. */
  function Clamped(p: seq<byte>, maxMTU: int): (q: seq<byte>)
    ensures |q| == |p|
  {
    match Target(p, maxMTU)
    case None => p
    case Some(e) => if Word(p, e.at + 2) <= e.limit then p else Rewritten(p, e)
  }

  // ----- the program -----

  method PutUint16(packet: array<byte>, i: nat, w: nat)
    requires i + 2 <= packet.Length && w < 0x1_0000
    modifies packet
    ensures packet[..] == Put16(old(packet[..]), i, w)
  {
    packet[i] := w / 256;
    packet[i + 1] := w % 256;
  }

  method UpdateMSSOption(packet: array<byte>, from: nat, end: nat, maxMSS: nat) returns (changed: bool)
    requires from <= end <= packet.Length && maxMSS < 0x1_0000
    modifies packet
    ensures var p, r := old(packet[..]), FindMSS(old(packet[..]), from, end);
      && changed == (r.Some? && Word(p, r.value + 2) > maxMSS)
      && packet[..] == if changed then Put16(p, r.value + 2, maxMSS) else p
  {
    ghost var p := packet[..];
    var i := from;
    while i < end
      invariant from <= i <= end && packet[..] == p
      invariant FindMSS(p, i, end) == FindMSS(p, from, end)
      decreases |p| - i
    {
      var kind := packet[i];
      if kind == 0 { return false; }
      if kind == 1 {
        i := i + 1;
        continue;
      }
      if i + 1 >= end { return false; }
      var len := packet[i + 1] as int;
      if len < 2 || i + len > end { return false; }
      if kind == 2 && len == 4 {
        var current := packet[i + 2] as int * 256 + packet[i + 3] as int;
        if current > maxMSS {
          PutUint16(packet, i + 2, maxMSS);
          return true;
        }
        return false;
      }
      i := i + len;
    }
    return false;
  }

  method RecalculateTCPChecksum(packet: array<byte>, version: nat, h: nat)
    requires h + 20 <= packet.Length && (version != 4 ==> packet.Length >= 40)
    modifies packet
    ensures packet[..] == WithChecksum(old(packet[..]), version, h)
  {
    PutUint16(packet, h + 16, 0);
    var p := packet[..];
    var sum := SumPseudo(p, version, h);
    sum := SumTail(p, h, sum);
    WrapAdd(PseudoSum(p, version, h), TailSum(p, h));
    var c := FoldSum(sum);
    PutUint16(packet, h + 16, c);
  }

  method SumPseudo(p: seq<byte>, version: nat, h: nat) returns (sum: nat)
    requires |p| >= 20 && h <= |p| && (version != 4 ==> |p| >= 40)
    ensures sum == PseudoSum(p, version, h) % TwoTo32
  {
    sum := 0;
    var i, end := 8, 40;
    if version == 4 { i, end := 12, 20; }
    ghost var first := i;
    while i < end
      invariant first <= i <= end && (i - first) % 2 == 0
      invariant sum == WordSum(p, first, (i - first) / 2) && sum <= 0xffff * (i - first)
    {
      sum := sum + Word(p, i);
      i := i + 2;
    }
    WrapAdd(6 + (|p| - h) % TwoTo32, sum);
    sum := (sum + (|p| - h) % TwoTo32 + 6) % TwoTo32;
  }

  lemma {:induction false} ByOptions(p: seq<byte>, maxMTU: int, o: Options)
    requires SynOptions(p, maxMTU) == Some(o)
    ensures var r := FindMSS(p, o.from, o.end);
      if r.Some? && Word(p, r.value + 2) > o.layout.maxMSS
      then Clamped(p, maxMTU) == WithChecksum(Put16(p, r.value + 2, o.layout.maxMSS), o.layout.version, o.layout.ipHdrLen)
      else Clamped(p, maxMTU) == p
  {
    var r := FindMSS(p, o.from, o.end);
    if r.Some? {
      assert Target(p, maxMTU) == Some(Edit(o.layout.version, o.layout.ipHdrLen, o.layout.maxMSS, r.value));
    } else {
      assert Target(p, maxMTU) == None;
    }
  }

  lemma {:induction false} NoOptions(p: seq<byte>, maxMTU: int)
    requires SynOptions(p, maxMTU).None?
    ensures Clamped(p, maxMTU) == p
  {
  }

  /** Rewrites the option if it is too large, and then the checksum. */
  method ClampOption(packet: array<byte>, o: Options, ghost p: seq<byte>, maxMTU: int)
    requires packet[..] == p && SynOptions(p, maxMTU) == Some(o)
    modifies packet
    ensures packet[..] == Clamped(p, maxMTU)
  {
    ByOptions(p, maxMTU, o);
    var changed := UpdateMSSOption(packet, o.from, o.end, o.layout.maxMSS);
    if changed { RecalculateTCPChecksum(packet, o.layout.version, o.layout.ipHdrLen); }
  }

  method ClampTCPMSSInPlace(packet: array<byte>, maxMTU: int)
    modifies packet
    ensures packet[..] == Clamped(old(packet[..]), maxMTU)
  {
    ghost var p := packet[..];
    if SynOptions(p, maxMTU).None? { NoOptions(p, maxMTU); }
    if packet.Length < 20 || maxMTU <= 40 { return; }
    var r := CalculateMaxMSS(packet[..], maxMTU);
    if r.None? { return; }
    var l := r.value;
    var h := l.ipHdrLen;
    if packet[h + 13] as int / 2 % 2 == 0 { return; }
    var dataOffset := (packet[h + 12] as int / 16) * 4;
    if packet.Length - h < dataOffset || dataOffset < 20 { return; }
    ClampOption(packet, Options(l, h + 20, h + dataOffset), p, maxMTU);
  }

  // ----- what clamping changes -----

  lemma {:induction false} Put16Bytes(p: seq<byte>, i: nat, w: nat)
    requires i + 2 <= |p| && w < 0x1_0000
    ensures forall k | 0 <= k < |p| && k != i && k != i + 1 :: Put16(p, i, w)[k] == p[k]
    ensures DifferInWord(p, Put16(p, i, w), i)
  {
  }

  lemma {:induction false} RewrittenBytes(p: seq<byte>, e: Edit)
    requires e.Fits(|p|)
    ensures var q := Rewritten(p, e);
      && (forall k | 0 <= k < |p| && k != e.at + 2 && k != e.at + 3 && k != e.h + 16 && k != e.h + 17 :: q[k] == p[k])
      && Word(q, e.at + 2) == e.limit
  {
    var p1 := Put16(p, e.at + 2, e.limit);
    var p2 := Put16(p1, e.h + 16, 0);
    Put16Bytes(p, e.at + 2, e.limit);
    Put16Bytes(p1, e.h + 16, 0);
    Put16Bytes(p2, e.h + 16, Complement(SegmentSum(p2, e.version, e.h)));
  }

  /** Only the two MSS bytes and the two checksum bytes can change, and only when the packet has
      an MSS option; the option then holds the smaller of its value and the limit. */
  lemma {:induction false} ChangesOnly(p: seq<byte>, maxMTU: int)
    ensures Target(p, maxMTU).None? ==> Clamped(p, maxMTU) == p
    ensures Target(p, maxMTU).Some? ==>
      var e, q := Target(p, maxMTU).value, Clamped(p, maxMTU);
      && (forall k | 0 <= k < |p| && k != e.at + 2 && k != e.at + 3 && k != e.h + 16 && k != e.h + 17 :: q[k] == p[k])
      && Word(q, e.at + 2) == (if Word(p, e.at + 2) <= e.limit then Word(p, e.at + 2) else e.limit)
      && (Word(p, e.at + 2) <= e.limit ==> q == p)
  {
    var r := Target(p, maxMTU);
    if r.Some? { RewrittenBytes(p, r.value); }
  }

  /** The option walk sees only the bytes up to the option it finds. */
  lemma {:induction false} FindMSSSame(p: seq<byte>, q: seq<byte>, i: nat, end: nat)
    requires |p| == |q| && i <= end <= |p| && FindMSS(p, i, end).Some?
    requires forall k | i <= k < end && k != FindMSS(p, i, end).value + 2 && k != FindMSS(p, i, end).value + 3 :: p[k] == q[k]
    ensures FindMSS(q, i, end) == FindMSS(p, i, end)
    decreases end - i
  {
    if p[i] == 1 {
      FindMSSSame(p, q, i + 1, end);
    } else if !(p[i] == 2 && p[i + 1] == 4) {
      FindMSSSame(p, q, i + p[i + 1] as int, end);
    }
  }

  /** Packets that differ only in the option's value and the checksum have the same target. */
  lemma {:induction false} SameTarget(p: seq<byte>, q: seq<byte>, maxMTU: int)
    requires |p| == |q| && Target(p, maxMTU).Some?
    requires var e := Target(p, maxMTU).value;
      forall k | 0 <= k < |p| && k != e.at + 2 && k != e.at + 3 && k != e.h + 16 && k != e.h + 17 :: q[k] == p[k]
    ensures Target(q, maxMTU) == Target(p, maxMTU)
  {
    var o := SynOptions(p, maxMTU).value;
    var h := o.layout.ipHdrLen;
    assert q[0] == p[0] && q[6] == p[6] && q[9] == p[9];
    assert CalculateMaxMSS(q, maxMTU) == CalculateMaxMSS(p, maxMTU);
    assert q[h + 12] == p[h + 12] && q[h + 13] == p[h + 13];
    assert SynOptions(q, maxMTU) == SynOptions(p, maxMTU);
    FindMSSSame(p, q, o.from, o.end);
  }

  /** A clamped packet's first MSS option is where it was and announces at most the limit. */
  lemma {:induction false} AnnouncesAtMost(p: seq<byte>, maxMTU: int)
    requires Target(p, maxMTU).Some?
    ensures Target(Clamped(p, maxMTU), maxMTU) == Target(p, maxMTU)
    ensures Word(Clamped(p, maxMTU), Target(p, maxMTU).value.at + 2) <= Target(p, maxMTU).value.limit
  {
    ChangesOnly(p, maxMTU);
    SameTarget(p, Clamped(p, maxMTU), maxMTU);
  }

  /** The limit leaves room for the IP and TCP headers; beyond 16 bits it is truncated, never raised. */
  lemma {:induction false} LimitOf(p: seq<byte>, maxMTU: int)
    requires Target(p, maxMTU).Some?
    ensures var e := Target(p, maxMTU).value; var headers := if e.version == 4 then 40 else 60;
      && e.limit <= maxMTU - headers
      && (e.limit == maxMTU - headers <==> maxMTU - headers <= 0xffff)
  {
  }

  /** Clamping twice is clamping once. */
  lemma {:induction false} ClampIdempotent(p: seq<byte>, maxMTU: int)
    ensures Clamped(Clamped(p, maxMTU), maxMTU) == Clamped(p, maxMTU)
  {
    ChangesOnly(p, maxMTU);
    if Target(p, maxMTU).Some? {
      AnnouncesAtMost(p, maxMTU);
      ChangesOnly(Clamped(p, maxMTU), maxMTU);
    }
  }

  // ----- the checksum -----

  /** The packet with the option rewritten and the checksum field zero. */
  function Zeroed(p: seq<byte>, e: Edit): (q: seq<byte>)
    requires e.Fits(|p|)
    ensures |q| == |p| && Word(q, e.h + 16) == 0
  {
    Put16(Put16(p, e.at + 2, e.limit), e.h + 16, 0)
  }

  /** Everything the checksum covers. */
  function Covered(p: seq<byte>, e: Edit): nat
    requires e.Fits(|p|)
  {
    SegmentSum(Zeroed(p, e), e.version, e.h)
  }

  lemma {:induction false} PseudoFill(p: seq<byte>, q: seq<byte>, version: nat, h: nat)
    requires h + 20 <= |p| && (version == 4 || h == 40) && h % 4 == 0 && DifferInWord(p, q, h + 16) && Word(p, h + 16) == 0
    ensures PseudoSum(q, version, h) == PseudoSum(p, version, h) + if version == 4 && h == 0 then Word(q, h + 16) else 0
  {
    if version == 4 && h == 0 {
      WordSumChange(p, q, 12, 4, 2);
    } else if version == 4 {
      assert p[12..20] == q[12..20];
      WordSumSame(p, q, 12, 4);
    } else {
      assert p[8..40] == q[8..40];
      WordSumSame(p, q, 8, 16);
    }
  }

  /** An IPv4 header length of zero puts the TCP checksum over the destination address. */
  lemma {:induction false} FillSegment(p: seq<byte>, version: nat, h: nat, c: nat)
    requires h + 20 <= |p| && (version == 4 || h == 40) && h % 4 == 0 && c < 0x1_0000 && Word(p, h + 16) == 0
    ensures SegmentSum(Put16(p, h + 16, c), version, h)
         == SegmentSum(p, version, h) + (if version == 4 && h == 0 then 2 * c else c)
  {
    var q := Put16(p, h + 16, c);
    Put16Bytes(p, h + 16, c);
    TailSumFill(p, q, h, 8);
    PseudoFill(p, q, version, h);
  }

  /** A receiver accepts the rewritten packet exactly when the accumulator's lost wraps are a
      multiple of 65535 and, where the header length is zero and the field is summed twice, the
      stored checksum makes up for it. */
  lemma {:induction false} ChecksumExactly(p: seq<byte>, e: Edit)
    requires e.Fits(|p|)
    ensures TcpAccepts(Rewritten(p, e), e.version, e.h) <==>
      (Covered(p, e) / TwoTo32 + (if e.version == 4 && e.h == 0 then Complement(Covered(p, e)) else 0)) % 0xffff == 0
  {
    var sum := Covered(p, e);
    var c := Complement(sum);
    var twice := e.version == 4 && e.h == 0;
    FillSegment(Zeroed(p, e), e.version, e.h, c);
    assert Rewritten(p, e) == Put16(Zeroed(p, e), e.h + 16, c);
    FilledAccepted(sum, c, twice, SegmentSum(Rewritten(p, e), e.version, e.h));
  }

  /** A sum completed by its complement, counted once or twice. */
  lemma {:induction false} FilledAccepted(sum: nat, c: nat, twice: bool, filled: nat)
    requires c == Complement(sum) && filled == sum + (if twice then 2 * c else c)
    ensures Accepts(filled) <==> (sum / TwoTo32 + (if twice then c else 0)) % 0xffff == 0
  {
    ComplementCompletes(sum);
    AcceptsExactly(filled);
  }

  lemma {:induction false} SegmentSumBound(p: seq<byte>, version: nat, h: nat)
    requires h + 20 <= |p| <= 131000 && (version != 4 ==> |p| >= 40)
    ensures 6 <= SegmentSum(p, version, h) < TwoTo32
  {
    TailSumBound(p, h);
    if version == 4 { WordSumBound(p, 12, 4); } else { WordSumBound(p, 8, 16); }
  }

  lemma {:induction false} ComplementZero(sum: nat)
    requires 0 < sum < TwoTo32
    ensures (sum / TwoTo32) % 0xffff == 0
    ensures (sum / TwoTo32 + Complement(sum)) % 0xffff == 0 <==> sum % 0xffff == 0
  {
    FoldResidue(sum);
  }

  /** For packets up to 131000 bytes the clamped packet verifies, unless the IPv4 header length is
      zero: then it does exactly when the covered sum was a multiple of 65535 already. */
  lemma {:induction false} ChecksumVerifies(p: seq<byte>, maxMTU: int)
    requires Target(p, maxMTU).Some? && Clamped(p, maxMTU) != p && |p| <= 131000
    ensures var e := Target(p, maxMTU).value;
      TcpAccepts(Clamped(p, maxMTU), e.version, e.h) <==>
      !(e.version == 4 && e.h == 0) || Covered(p, e) % 0xffff == 0
  {
    var e := Target(p, maxMTU).value;
    assert Clamped(p, maxMTU) == Rewritten(p, e);
    SegmentSumBound(Zeroed(p, e), e.version, e.h);
    ChecksumExactly(p, e);
    ComplementZero(Covered(p, e));
  }

  /** A SYN with header length zero whose clamped checksum a receiver rejects. */
  lemma {:induction false} ZeroHeaderLengthRejected() returns (p: seq<byte>)
    ensures Target(p, 1400) == Some(Edit(4, 0, 1360, 20)) && Clamped(p, 1400) != p
    ensures !TcpAccepts(Clamped(p, 1400), 4, 0)
  {
    p := [0x40, 0, 0, 0, 0, 0, 0, 0, 0, 6, 0, 0, 0x60, 2, 0, 0, 0, 0, 0, 0, 2, 4, 0xff, 0xff];
    assert CalculateMaxMSS(p, 1400) == Some(Layout(4, 0, 1360));
    assert SynOptions(p, 1400) == Some(Options(Layout(4, 0, 1360), 20, 24));
    assert Target(p, 1400) == Some(Edit(4, 0, 1360, 20));
    RejectedBy(p, 1400);
  }

  /** The bytes that matter of that packet. */
  lemma {:induction false} RejectedBy(p: seq<byte>, maxMTU: int)
    requires |p| == 24 && Target(p, maxMTU) == Some(Edit(4, 0, 1360, 20)) && Word(p, 22) == 0xffff
    requires Word(p, 0) == 0x4000 && Word(p, 8) == 6 && Word(p, 12) == 0x6002 && Word(p, 20) == 0x204
    requires Word(p, 2) == Word(p, 4) == Word(p, 6) == Word(p, 10) == Word(p, 14) == Word(p, 18) == 0
    ensures Clamped(p, maxMTU) != p && !TcpAccepts(Clamped(p, maxMTU), 4, 0)
  {
    var e := Edit(4, 0, 1360, 20);
    assert Clamped(p, maxMTU) != p by { ChangesOnly(p, maxMTU); }
    assert Covered(p, e) == 67452 by {
      Put16Bytes(p, 22, 1360);
      Put16Bytes(Put16(p, 22, 1360), 16, 0);
      var q := Zeroed(p, e);
      SmallSums(q);
      assert Word(q, 0) == 0x4000 && Word(q, 8) == 6 && Word(q, 12) == 0x6002 && Word(q, 20) == 0x204 && Word(q, 22) == 1360;
      assert Word(q, 2) == Word(q, 4) == Word(q, 6) == Word(q, 10) == Word(q, 14) == Word(q, 16) == Word(q, 18) == 0;
    }
    ChecksumVerifies(p, maxMTU);
  }

  lemma {:induction false} SmallSums(p: seq<byte>)
    requires |p| == 24
    ensures WordSum(p, 12, 4) == Word(p, 12) + Word(p, 14) + Word(p, 16) + Word(p, 18)
    ensures TailSum(p, 0) == Word(p, 0) + Word(p, 2) + Word(p, 4) + Word(p, 6) + Word(p, 8) + Word(p, 10)
      + Word(p, 12) + Word(p, 14) + Word(p, 16) + Word(p, 18) + Word(p, 20) + Word(p, 22)
  {
    assert WordSum(p, 12, 0) == 0 && WordSum(p, 12, 1) == Word(p, 12);
    assert WordSum(p, 12, 2) == Word(p, 12) + Word(p, 14);
    assert WordSum(p, 0, 0) == 0 && WordSum(p, 0, 1) == Word(p, 0);
    assert WordSum(p, 0, 2) == Word(p, 0) + Word(p, 2);
    assert WordSum(p, 0, 4) == WordSum(p, 0, 2) + Word(p, 4) + Word(p, 6);
    assert WordSum(p, 0, 6) == WordSum(p, 0, 4) + Word(p, 8) + Word(p, 10);
    assert WordSum(p, 0, 8) == WordSum(p, 0, 6) + Word(p, 12) + Word(p, 14);
    assert WordSum(p, 0, 10) == WordSum(p, 0, 8) + Word(p, 16) + Word(p, 18);
    assert WordSum(p, 0, 12) == WordSum(p, 0, 10) + Word(p, 20) + Word(p, 22);
  }
}
