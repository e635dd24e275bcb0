/**
  Which packets the MSS clamp looks at (tunnel/masque/bridge.go), in terms of how a TCP SYN is put
  together: IP header, TCP header, options, data.
*/
module MssSyn {
  import opened Optional
  import opened Words
  import opened Checksum
  import opened MssClamp

  // ----- options -----

  /** A TCP option other than the end of the list. */
  datatype Opt = Nop | Mss(value: nat) | Other(kind: nat, body: seq<byte>)
  {
    predicate Valid() {
      match this
      case Nop => true
      case Mss(v) => v < 0x1_0000
      case Other(kind, body) => 2 <= kind < 256 && |body| <= 253 && (kind == 2 ==> |body| != 2)
    }

    function Bytes(): seq<byte>
      requires Valid()
    {
      match this
      case Nop => [1]
      case Mss(v) => [2, 4, v / 256, v % 256]
      case Other(kind, body) => [kind, |body| + 2] + body
    }
  }

  /** The options stand one behind the other in p[i..end], none of them an MSS option. */
  ghost predicate Laid(p: seq<byte>, i: nat, end: nat, os: seq<Opt>)
    requires end <= |p|
    decreases |os|
  {
    if os == [] then i <= end else
      && os[0].Valid() && !os[0].Mss? && i + |os[0].Bytes()| <= end
      && p[i..i + |os[0].Bytes()|] == os[0].Bytes() && Laid(p, i + |os[0].Bytes()|, end, os[1..])
  }

  function Size(os: seq<Opt>): nat {
    if os == [] then 0 else (if os[0].Valid() then |os[0].Bytes()| else 0) + Size(os[1..])
  }

  /** Behind such options there is an MSS option at `at`. */
  ghost predicate Announces(p: seq<byte>, i: nat, end: nat, os: seq<Opt>, at: nat, value: nat) {
    && at + 4 <= end <= |p| && value < 0x1_0000
    && Laid(p, i, end, os) && at == i + Size(os) && p[at..at + 4] == Mss(value).Bytes()
  }

  /** The walk steps over an option that is not MSS. */
  lemma {:induction false} StepsOver(p: seq<byte>, i: nat, end: nat, o: Opt, n: nat)
    requires o.Valid() && !o.Mss? && n == |o.Bytes()| && i + n <= end <= |p| && p[i..i + n] == o.Bytes()
    ensures FindMSS(p, i, end) == FindMSS(p, i + n, end)
  {
    var b := p[i..i + n];
    assert p[i] == b[0];
    if o.Other? { assert p[i + 1] == b[1]; }
  }

  /** And stops at one that is. */
  lemma {:induction false} StopsAt(p: seq<byte>, i: nat, end: nat, value: nat)
    requires value < 0x1_0000 && i + 4 <= end <= |p| && p[i..i + 4] == Mss(value).Bytes()
    ensures FindMSS(p, i, end) == Some(i) && Word(p, i + 2) == value
  {
    var b := p[i..i + 4];
    assert p[i] == b[0] && p[i + 1] == b[1] && p[i + 2] == b[2] && p[i + 3] == b[3];
  }

  lemma {:induction false} LaidSkips(p: seq<byte>, i: nat, end: nat, os: seq<Opt>, at: nat)
    requires end <= |p| && Laid(p, i, end, os) && at == i + Size(os)
    ensures at <= end && FindMSS(p, i, end) == FindMSS(p, at, end)
    decreases |os|
  {
    if os != [] {
      var n := |os[0].Bytes()|;
      StepsOver(p, i, end, os[0], n);
      LaidSkips(p, i + n, end, os[1..], at);
    }
  }

  lemma {:induction false} FindsBehind(p: seq<byte>, i: nat, end: nat, os: seq<Opt>, at: nat, value: nat)
    requires Announces(p, i, end, os, at, value)
    ensures FindMSS(p, i, end) == Some(at) && Word(p, at + 2) == value
  {
    StopsAt(p, at, end, value);
    LaidSkips(p, i, end, os, at);
  }

  /** The option at i, if the walk does not stop there. */
  lemma {:induction false} OptAt(p: seq<byte>, i: nat, end: nat) returns (o: Opt, n: nat)
    requires i < end <= |p| && FindMSS(p, i, end).Some? && FindMSS(p, i, end) != Some(i)
    ensures o.Valid() && !o.Mss? && n == |o.Bytes()| && i + n <= end && p[i..i + n] == o.Bytes()
  {
    if p[i] == 1 { return Nop, 1; }
    n := p[i + 1] as int;
    o := Other(p[i], p[i + 2..i + n]);
    assert p[i..i + n] == o.Bytes();
  }

  lemma {:induction false} LaidMore(p: seq<byte>, i: nat, n: nat, end: nat, o: Opt, os: seq<Opt>)
    requires o.Valid() && !o.Mss? && n == |o.Bytes()| && i + n <= end <= |p| && p[i..i + n] == o.Bytes() && Laid(p, i + n, end, os)
    ensures Laid(p, i, end, [o] + os) && Size([o] + os) == n + Size(os)
  {
    assert ([o] + os)[1..] == os;
  }

  lemma {:induction false} FoundBehind(p: seq<byte>, i: nat, end: nat, at: nat) returns (os: seq<Opt>, value: nat)
    requires i <= end <= |p| && FindMSS(p, i, end) == Some(at)
    ensures value < 0x1_0000 && at + 4 <= end && p[at..at + 4] == Mss(value).Bytes()
    ensures Laid(p, i, end, os) && at == i + Size(os)
    decreases |p| - i
  {
    if at == i {
      os, value := [], Word(p, i + 2);
      assert p[i..i + 4] == Mss(value).Bytes();
    } else {
      var o, n := OptAt(p, i, end);
      StepsOver(p, i, end, o, n);
      os, value := FoundBehind(p, i + n, end, at);
      LaidMore(p, i, n, end, o, os);
      os := [o] + os;
    }
  }

  /** The walk ends on an MSS option exactly when there is one behind well-formed other options, and
      then on the first one. */
  lemma {:induction false} MssExactly(p: seq<byte>, i: nat, end: nat, at: nat)
    requires i <= end <= |p|
    ensures FindMSS(p, i, end) == Some(at) <==> exists os, value :: Announces(p, i, end, os, at, value)
  {
    if FindMSS(p, i, end) == Some(at) {
      var os, value := FoundBehind(p, i, end, at);
      assert Announces(p, i, end, os, at, value);
    }
    forall os, value | Announces(p, i, end, os, at, value) ensures FindMSS(p, i, end) == Some(at) {
      FindsBehind(p, i, end, os, at, value);
    }
  }

  // ----- the packet -----

  datatype Parts = Parts(version: nat, ip: seq<byte>, tcp: seq<byte>, options: seq<byte>, data: seq<byte>) {
    function From(): nat { |ip| + 20 }
    function End(): nat { |ip| + 20 + |options| }

    /** What the MTU leaves for a segment, without options. */
    function Room(maxMTU: int): int { maxMTU - (if version == 4 then 40 else 60) }
  }

  /** A TCP SYN: IP header of its announced length with protocol 6, TCP header with the SYN bit whose
      data offset covers the options, options, data. */
  ghost predicate Syn(p: seq<byte>, s: Parts) {
    && |p| >= 20 && p == s.ip + s.tcp + s.options + s.data && p[0] / 16 == s.version
    && ((s.version == 4 && |s.ip| == 4 * (p[0] % 16) && p[9] == 6) || (s.version == 6 && |s.ip| == 40 && p[6] == 6))
    && |s.tcp| == 20 && s.tcp[13] / 2 % 2 == 1 && s.tcp[12] / 16 * 4 == 20 + |s.options|
  }

  lemma {:induction false} SynIsSeen(p: seq<byte>, maxMTU: int, s: Parts)
    requires Syn(p, s) && s.Room(maxMTU) > 0
    ensures SynOptions(p, maxMTU) == Some(Options(Layout(s.version, |s.ip|, s.Room(maxMTU) % 0x1_0000), s.From(), s.End()))
  {
    assert p[|s.ip| + 12] == s.tcp[12] && p[|s.ip| + 13] == s.tcp[13];
  }

  lemma {:induction false} SeenIsSyn(p: seq<byte>, maxMTU: int) returns (s: Parts)
    requires SynOptions(p, maxMTU).Some?
    ensures Syn(p, s) && s.Room(maxMTU) > 0
  {
    var o := SynOptions(p, maxMTU).value;
    var h := o.layout.ipHdrLen;
    s := Parts(o.layout.version, p[..h], p[h..h + 20], p[h + 20..o.end], p[o.end..]);
    assert s.tcp[12] == p[h + 12] && s.tcp[13] == p[h + 13];
    assert p == p[..h] + p[h..h + 20] + p[h + 20..o.end] + p[o.end..];
  }

  lemma {:induction false} TargetFrom(p: seq<byte>, maxMTU: int, o: Options, at: nat)
    requires SynOptions(p, maxMTU) == Some(o)
    ensures FindMSS(p, o.from, o.end) == Some(at) <==>
      Target(p, maxMTU) == Some(Edit(o.layout.version, o.layout.ipHdrLen, o.layout.maxMSS, at))
    ensures FindMSS(p, o.from, o.end).None? <==> Target(p, maxMTU).None?
  {
  }

  /** A SYN that announces a segment size. */
  ghost predicate SynAnnounces(p: seq<byte>, s: Parts, os: seq<Opt>, at: nat, value: nat) {
    Syn(p, s) && Announces(p, s.From(), s.End(), os, at, value)
  }

  /** The clamp has something to look at exactly in a TCP SYN that announces a segment size, when the
      MTU leaves room for the headers. */
  lemma {:induction false} TargetExactly(p: seq<byte>, maxMTU: int)
    ensures Target(p, maxMTU).Some? <==> exists s, os, at, value :: SynAnnounces(p, s, os, at, value) && s.Room(maxMTU) > 0
  {
    if Target(p, maxMTU).Some? {
      var s, os, value := TargetIsSyn(p, maxMTU);
    }
    if s, os, at, value :| SynAnnounces(p, s, os, at, value) && s.Room(maxMTU) > 0 {
      SynIsTarget(p, maxMTU, s, os, at, value);
    }
  }

  lemma {:induction false} TargetIsSyn(p: seq<byte>, maxMTU: int) returns (s: Parts, os: seq<Opt>, value: nat)
    requires Target(p, maxMTU).Some?
    ensures SynAnnounces(p, s, os, Target(p, maxMTU).value.at, value) && s.Room(maxMTU) > 0
  {
    var at := Target(p, maxMTU).value.at;
    s := SeenIsSyn(p, maxMTU);
    SynIsSeen(p, maxMTU, s);
    TargetFrom(p, maxMTU, SynOptions(p, maxMTU).value, at);
    os, value := FoundBehind(p, s.From(), s.End(), at);
  }

  /** The option it looks at is that one, and the limit is what the MTU leaves, in 16 bits. */
  lemma {:induction false} SynIsTarget(p: seq<byte>, maxMTU: int, s: Parts, os: seq<Opt>, at: nat, value: nat)
    requires SynAnnounces(p, s, os, at, value) && s.Room(maxMTU) > 0
    ensures Target(p, maxMTU) == Some(Edit(s.version, |s.ip|, s.Room(maxMTU) % 0x1_0000, at)) && Word(p, at + 2) == value
  {
    SynIsSeen(p, maxMTU, s);
    FindsBehind(p, s.From(), s.End(), os, at, value);
    TargetFrom(p, maxMTU, SynOptions(p, maxMTU).value, at);
  }
}
