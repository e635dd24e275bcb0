/** Capsule payloads and frames (tunnel/masque/capsule.go). */
module Capsules {
  // ADDRESS_ASSIGN, ADDRESS_REQUEST and ROUTE_ADVERTISEMENT (section 4.7 of RFC 9484), and the
  // capsule frame around them (section 3.2 of RFC 9297).

  import opened Words
  import opened Varint

  // ----- addresses, as net/netip has them -----

  datatype Addr = NoAddr | Ip4(b: seq<byte>) | Ip6(b: seq<byte>, zone: string) {
    predicate Valid() { (Ip4? ==> |b| == 4) && (Ip6? ==> |b| == 16) }
  }

  const MappedPrefix: seq<byte> := [0, 0, 0, 0, 0, 0, 0, 0, 0, 0, 255, 255]
  const NoBytes16: seq<byte> := [0, 0, 0, 0, 0, 0, 0, 0, 0, 0, 0, 0, 0, 0, 0, 0]

  /** As4 panics on anything but an IPv4 or an IPv4-mapped address. */
  predicate HasAs4(a: Addr)
    requires a.Valid()
  {
    a.Ip4? || (a.Ip6? && a.b[..12] == MappedPrefix)
  }

  function As4(a: Addr): (s: seq<byte>)
    requires a.Valid() && HasAs4(a)
    ensures |s| == 4
  {
    if a.Ip4? then a.b else a.b[12..]
  }

  function As16(a: Addr): (s: seq<byte>)
    requires a.Valid()
    ensures |s| == 16
  {
    match a
    case NoAddr => NoBytes16
    case Ip4(b) => MappedPrefix + b
    case Ip6(b, _) => b
  }

  /** AddrFrom4 or AddrFrom16. */
  function AddrFrom(ip: seq<byte>): Addr {
    if |ip| == 4 then Ip4(ip) else Ip6(ip, "")
  }

  // ----- entries -----

  /** AssignedAddress and RequestedAddress have the same fields. */
  datatype AddressEntry = AddressEntry(addr: Addr, requestID: nat, version: byte, prefixLength: byte) {
    predicate Valid() { addr.Valid() && requestID < TwoTo64 }

    /** Version 0 means: the family of the address. */
    function WireVersion(): byte {
      if version != 0 then version else if addr.Ip4? then 4 else 6
    }

    /** The encoder does not panic on it. */
    predicate Encodable() { Valid() && (WireVersion() == 4 ==> HasAs4(addr)) }
  }

  datatype RouteRange = RouteRange(start: Addr, end: Addr, version: byte, protocol: byte) {
    predicate Valid() { start.Valid() && end.Valid() }

    function WireVersion(): byte {
      if version != 0 then version else if start.Ip4? then 4 else 6
    }

    predicate Encodable() { Valid() && (WireVersion() == 4 ==> HasAs4(start) && HasAs4(end)) }
  }

  /** The fields of an entry as they are on the wire. A route has no identifier and two addresses. */
  datatype Raw = Raw(id: nat, version: byte, ip: seq<byte>, last: byte)

  datatype Error = Truncated | InvalidCapsule | EmptyAddressRequest
  datatype Result<+T> = Ok(value: T) | Err(error: Error)

  function EntryOf(r: Raw): AddressEntry { AddressEntry(AddrFrom(r.ip), r.id, r.version, r.last) }

  function RangeOf(r: Raw): RouteRange {
    var half := |r.ip| / 2;
    RouteRange(AddrFrom(r.ip[..half]), AddrFrom(r.ip[half..]), r.version, r.last)
  }

  function Entries(rs: seq<Raw>): seq<AddressEntry> { seq(|rs|, i requires 0 <= i < |rs| => EntryOf(rs[i])) }
  function Ranges(rs: seq<Raw>): seq<RouteRange> { seq(|rs|, i requires 0 <= i < |rs| => RangeOf(rs[i])) }

  // ----- the decoders, on values -----

  function AddressBytes(version: byte, route: bool): nat {
    (if version == 4 then 4 else 16) * (if route then 2 else 1)
  }

  datatype Parsed = Item(raw: Raw, next: nat) | Fail(error: Error)

  /** From the version byte on. */
  function ParseTail(p: seq<byte>, at: nat, id: nat, route: bool): (r: Parsed)
    requires at < |p|
    ensures r.Item? ==> at < r.next <= |p|
  {
    var n := AddressBytes(p[at], route);
    if p[at] != 4 && p[at] != 6 then Fail(InvalidCapsule)
    else if at + 1 + n + 1 > |p| then Fail(InvalidCapsule)
    else Item(Raw(id, p[at], p[at + 1..at + 1 + n], p[at + 1 + n]), at + 1 + n + 1)
  }

  function Parse(p: seq<byte>, at: nat, route: bool): (r: Parsed)
    requires at < |p|
    ensures r.Item? ==> at < r.next <= |p|
  {
    if route then ParseTail(p, at, 0, true) else
      match DecodeVarint(p[at..])
      case None => Fail(Truncated)
      case Some(d) =>
        DecodeExtent(p[at..]);
        if at + d.readLen + 2 > |p| then Fail(InvalidCapsule) else ParseTail(p, at + d.readLen, d.val, false)
  }

  /** Everything from at on, after what was read already. */
  function ParseAll(p: seq<byte>, at: nat, route: bool, done: seq<Raw>): Result<seq<Raw>>
    requires at <= |p|
    decreases |p| - at
  {
    if at == |p| then Ok(done) else
      match Parse(p, at, route)
      case Fail(e) => Err(e)
      case Item(raw, next) => ParseAll(p, next, route, done + [raw])
  }

  // ----- the wire grammar -----

  /** One entry on the wire: any varint that announces its own length, then the fixed fields. */
  datatype Wire = Wire(id: seq<byte>, version: byte, ip: seq<byte>, last: byte) {
    predicate Valid(route: bool) {
      && (if route then id == [] else id != [] && |id| == Announced(id[0]))
      && (version == 4 || version == 6) && |ip| == AddressBytes(version, route)
    }

    function Bytes(): seq<byte> { id + [version] + ip + [last] }

    function Meaning(): Raw
    {
      Raw(if id == [] || DecodeVarint(id).None? then 0 else DecodeVarint(id).value.val, version, ip, last)
    }
  }

  function Flatten(ws: seq<Wire>, n: nat): seq<byte>
    requires n <= |ws|
  {
    if n == 0 then [] else Flatten(ws, n - 1) + ws[n - 1].Bytes()
  }

  function Meanings(ws: seq<Wire>, n: nat): (rs: seq<Raw>)
    requires n <= |ws|
    ensures |rs| == n
  {
    if n == 0 then [] else Meanings(ws, n - 1) + [ws[n - 1].Meaning()]
  }

  /** A payload made of these entries. */
  ghost predicate Spells(ws: seq<Wire>, route: bool, p: seq<byte>) {
    (forall i | 0 <= i < |ws| :: ws[i].Valid(route)) && Flatten(ws, |ws|) == p
  }

  lemma {:induction false} SliceSlice(p: seq<byte>, lo: nat, hi: nat, a: nat, b: nat)
    requires a <= b && lo + b <= hi <= |p|
    ensures p[lo..hi][a..b] == p[lo + a..lo + b]
  {
    forall i | 0 <= i < b - a ensures p[lo..hi][a..b][i] == p[lo + a..lo + b][i] { }
  }

  lemma {:induction false} ParseTailWire(p: seq<byte>, at: nat, w: Wire, route: bool, id: nat)
    requires w.Valid(route) && at + |w.ip| + 2 <= |p| && p[at..at + |w.ip| + 2] == [w.version] + w.ip + [w.last]
    ensures ParseTail(p, at, id, route) == Item(Raw(id, w.version, w.ip, w.last), at + |w.ip| + 2)
  {
    var s, n := p[at..at + |w.ip| + 2], |w.ip|;
    assert s[0] == w.version && s[1..n + 1] == w.ip && s[n + 1] == w.last;
    assert p[at] == s[0] && p[at + 1 + n] == s[n + 1];
    SliceSlice(p, at, at + n + 2, 1, n + 1);
  }

  lemma {:induction false} ParseWire(p: seq<byte>, at: nat, w: Wire, route: bool)
    requires w.Valid(route) && at + |w.Bytes()| <= |p| && p[at..at + |w.Bytes()|] == w.Bytes()
    ensures at < |p| && Parse(p, at, route) == Item(w.Meaning(), at + |w.Bytes()|)
  {
    var k := |w.id|;
    var hi := at + |w.Bytes()|;
    WireSlices(p, at, k, hi, w);
    if route {
      ParseTailWire(p, at, w, route, 0);
    } else {
      ReadId(p[at..], w.id);
      ParseTailWire(p, at + k, w, route, DecodeVarint(w.id).value.val);
    }
  }

  /** Where the identifier ends and the fixed fields begin. */
  lemma {:induction false} WireSlices(p: seq<byte>, at: nat, k: nat, hi: nat, w: Wire)
    requires k == |w.id| && hi == at + |w.Bytes()| <= |p| && p[at..hi] == w.Bytes()
    ensures p[at..at + k] == w.id && p[at + k..hi] == [w.version] + w.ip + [w.last] && w.id <= p[at..]
  {
    var tail := [w.version] + w.ip + [w.last];
    assert w.Bytes() == w.id + tail;
    assert (w.id + tail)[..k] == w.id && (w.id + tail)[k..] == tail;
    SliceSlice(p, at, hi, 0, k);
    SliceSlice(p, at, hi, k, hi - at);
  }

  lemma {:induction false} ReadId(s: seq<byte>, id: seq<byte>)
    requires id != [] && |id| == Announced(id[0]) && id <= s
    ensures DecodeVarint(s) == DecodeVarint(id) && DecodeVarint(id).Some? && DecodeVarint(id).value.readLen == |id|
  {
    DecodeExtent(id);
    DecodeExtent(s);
    assert s[..|id|] == id;
  }

  /** What was parsed was there. */
  lemma {:induction false} ParsedWire(p: seq<byte>, at: nat, route: bool) returns (w: Wire)
    requires at < |p| && Parse(p, at, route).Item?
    ensures w.Valid(route) && w.Meaning() == Parse(p, at, route).raw && p[at..Parse(p, at, route).next] == w.Bytes()
  {
    var Item(raw, next) := Parse(p, at, route);
    var k := if route then 0 else DecodeVarint(p[at..]).value.readLen;
    if !route { DecodeExtent(p[at..]); }
    FourPieces(p, at, at + k, next);
    w := Wire(p[at..at + k], raw.version, raw.ip, raw.last);
    if !route {
      assert p[at..][..k] == w.id;
      ReadId(p[at..], w.id);
    }
  }

  lemma {:induction false} FourPieces(p: seq<byte>, lo: nat, mid: nat, hi: nat)
    requires lo <= mid && mid + 2 <= hi <= |p|
    ensures p[lo..hi] == p[lo..mid] + [p[mid]] + p[mid + 1..hi - 1] + [p[hi - 1]]
  {
  }

  lemma {:induction false} FlattenGrows(ws: seq<Wire>, n: nat, m: nat)
    requires n <= m <= |ws|
    ensures Flatten(ws, n) <= Flatten(ws, m)
    decreases m
  {
    if n < m { FlattenGrows(ws, n, m - 1); }
  }

  /** Reading the first n entries of a payload that begins with them. */
  lemma {:induction false} ParsesSpelled(ws: seq<Wire>, route: bool, p: seq<byte>, n: nat)
    requires n <= |ws| && (forall i | 0 <= i < n :: ws[i].Valid(route)) && Flatten(ws, n) <= p
    ensures ParseAll(p, 0, route, []) == ParseAll(p, |Flatten(ws, n)|, route, Meanings(ws, n))
  {
    Unchanged(ws, route, p, n);
    StartOfEntries(ws, route, p, 0, []);
  }

  lemma {:induction false} StartOfEntries(ws: seq<Wire>, route: bool, p: seq<byte>, at: nat, none: seq<Raw>)
    requires at == 0 && none == []
    ensures AfterEntries(ws, route, p, 0) == ParseAll(p, at, route, none)
  {
  }

  lemma {:induction false} Unchanged(ws: seq<Wire>, route: bool, p: seq<byte>, n: nat)
    requires n <= |ws| && (forall i | 0 <= i < n :: ws[i].Valid(route)) && Flatten(ws, n) <= p
    ensures AfterEntries(ws, route, p, 0) == AfterEntries(ws, route, p, n)
  {
    var f := (k: nat) => AfterEntries(ws, route, p, k);
    forall k: nat | 0 < k <= n ensures f(k - 1) == f(k) {
      FlattenGrows(ws, k, n);
      SameAfter(ws, route, p, k);
    }
    Constant(f, n);
  }

  lemma {:induction false} SameAfter(ws: seq<Wire>, route: bool, p: seq<byte>, k: nat)
    requires 0 < k <= |ws| && ws[k - 1].Valid(route) && Flatten(ws, k) <= p
    ensures AfterEntries(ws, route, p, k - 1) == AfterEntries(ws, route, p, k)
  {
    ParsesOne(ws, route, p, k);
  }

  /** Reading on from behind the first k entries. */
  function AfterEntries(ws: seq<Wire>, route: bool, p: seq<byte>, k: nat): Result<seq<Raw>> {
    if k <= |ws| && |Flatten(ws, k)| <= |p| then ParseAll(p, |Flatten(ws, k)|, route, Meanings(ws, k)) else Err(Truncated)
  }

  lemma {:induction false} Constant<T>(f: nat -> T, n: nat)
    requires forall k: nat | 0 < k <= n :: f(k - 1) == f(k)
    ensures f(0) == f(n)
    decreases n
  {
    if n > 0 {
      Constant(f, n - 1);
      assert f(n - 1) == f(n);
    }
  }

  lemma {:induction false} ParsesOne(ws: seq<Wire>, route: bool, p: seq<byte>, n: nat)
    requires 0 < n <= |ws| && ws[n - 1].Valid(route) && Flatten(ws, n) <= p
    ensures |Flatten(ws, n - 1)| <= |Flatten(ws, n)| <= |p|
    ensures ParseAll(p, |Flatten(ws, n - 1)|, route, Meanings(ws, n - 1)) == ParseAll(p, |Flatten(ws, n)|, route, Meanings(ws, n))
  {
    NextBytes(ws, p, n - 1);
    ParsesNext(p, |Flatten(ws, n - 1)|, |Flatten(ws, n)|, ws[n - 1], route, Meanings(ws, n - 1));
  }

  lemma {:induction false} ParsesNext(p: seq<byte>, at: nat, next: nat, w: Wire, route: bool, done: seq<Raw>)
    requires w.Valid(route) && next == at + |w.Bytes()| <= |p| && p[at..next] == w.Bytes()
    ensures ParseAll(p, at, route, done) == ParseAll(p, next, route, done + [w.Meaning()])
  {
    ParseWire(p, at, w, route);
  }

  lemma {:induction false} NextBytes(ws: seq<Wire>, p: seq<byte>, n: nat)
    requires n < |ws| && Flatten(ws, n + 1) <= p
    ensures var a, b := Flatten(ws, n), ws[n].Bytes();
      |Flatten(ws, n + 1)| == |a| + |b| <= |p| && p[|a|..|a| + |b|] == b && a <= p
  {
    var a, b := Flatten(ws, n), ws[n].Bytes();
    assert Flatten(ws, n + 1) == a + b;
    assert (a + b)[|a|..] == b;
  }

  /** Soundness, from position at on. */
  lemma {:induction false} ParsedSpells(p: seq<byte>, at: nat, route: bool, before: seq<Wire>, done: seq<Raw>) returns (ws: seq<Wire>)
    requires at <= |p| && Spells(before, route, p[..at]) && Meanings(before, |before|) == done
    requires ParseAll(p, at, route, done).Ok?
    ensures Spells(ws, route, p) && ParseAll(p, at, route, done) == Ok(Meanings(ws, |ws|))
    decreases |p| - at
  {
    if at == |p| {
      ws := before;
      assert p[..at] == p;
    } else {
      var w := ParsedWire(p, at, route);
      var next := Parse(p, at, route).next;
      SpellOneMore(before, w, route, p[..at]);
      assert p[..at] + p[at..next] == p[..next];
      MeaningsPrefix(before, w, |before|);
      ws := ParsedSpells(p, next, route, before + [w], done + [w.Meaning()]);
    }
  }

  lemma {:induction false} SpellOneMore(ws: seq<Wire>, w: Wire, route: bool, p: seq<byte>)
    requires Spells(ws, route, p) && w.Valid(route)
    ensures Spells(ws + [w], route, p + w.Bytes())
  {
    FlattenPrefix(ws, w, |ws|);
  }

  lemma {:induction false} FlattenPrefix(ws: seq<Wire>, w: Wire, n: nat)
    requires n <= |ws|
    ensures Flatten(ws + [w], n) == Flatten(ws, n)
    decreases n
  {
    if n > 0 { FlattenPrefix(ws, w, n - 1); }
  }

  lemma {:induction false} MeaningsPrefix(ws: seq<Wire>, w: Wire, n: nat)
    requires n <= |ws|
    ensures Meanings(ws + [w], n) == Meanings(ws, n)
    decreases n
  {
    if n > 0 { MeaningsPrefix(ws, w, n - 1); }
  }

  /** A payload decodes to exactly the meanings of the entries that spell it. */
  lemma {:induction false} ParseExactly(p: seq<byte>, route: bool, rs: seq<Raw>)
    ensures ParseAll(p, 0, route, []) == Ok(rs) <==>
      exists ws :: Spells(ws, route, p) && Meanings(ws, |ws|) == rs
  {
    if ParseAll(p, 0, route, []) == Ok(rs) {
      var none: seq<Wire> := [];
      assert p[..0] == [] && Meanings(none, 0) == [];
      var ws := ParsedSpells(p, 0, route, none, []);
    }
    if ws :| Spells(ws, route, p) && Meanings(ws, |ws|) == rs {
      ParsesSpelled(ws, route, p, |ws|);
    }
  }

  // ----- what the encoders write -----

  function IpBytes(a: Addr, version: byte): (s: seq<byte>)
    requires a.Valid() && (version == 4 ==> HasAs4(a))
    ensures |s| == AddressBytes(version, false)
  {
    if version == 4 then As4(a) else As16(a)
  }

  function EntryWire(e: AddressEntry): Wire
    requires e.Encodable()
  {
    Wire(EncodeVarint(e.requestID), e.WireVersion(), IpBytes(e.addr, e.WireVersion()), e.prefixLength)
  }

  function RangeWire(r: RouteRange): Wire
    requires r.Encodable()
  {
    Wire([], r.WireVersion(), IpBytes(r.start, r.WireVersion()) + IpBytes(r.end, r.WireVersion()), r.protocol)
  }

  function EntryWires(es: seq<AddressEntry>): (ws: seq<Wire>)
    requires forall i | 0 <= i < |es| :: es[i].Encodable()
    ensures |ws| == |es|
  {
    seq(|es|, i requires 0 <= i < |es| => EntryWire(es[i]))
  }

  function RangeWires(rs: seq<RouteRange>): (ws: seq<Wire>)
    requires forall i | 0 <= i < |rs| :: rs[i].Encodable()
    ensures |ws| == |rs|
  {
    seq(|rs|, i requires 0 <= i < |rs| => RangeWire(rs[i]))
  }

  predicate KnownVersion(v: byte) { v == 4 || v == 6 }

  lemma {:induction false} EntryWireValid(e: AddressEntry)
    requires e.Encodable()
    ensures EntryWire(e).Valid(false) <==> KnownVersion(e.WireVersion())
    ensures EntryWire(e).Meaning() == Raw(Trunc(e.requestID, 62), e.WireVersion(), IpBytes(e.addr, e.WireVersion()), e.prefixLength)
  {
    var id := EncodeVarint(e.requestID);
    DecodeEncode(e.requestID, []);
    assert id + [] == id;
    DecodeExtent(id);
  }

  /** An entry that decoding gives back as it is. */
  predicate Settled(e: AddressEntry) {
    e.requestID < Pow2(62) && ((e.version == 4 && e.addr.Ip4?) || (e.version == 6 && e.addr.Ip6? && e.addr.zone == ""))
  }

  lemma {:induction false} SettledExactly(e: AddressEntry)
    requires e.Encodable() && KnownVersion(e.WireVersion())
    ensures EntryOf(EntryWire(e).Meaning()) == e <==> Settled(e)
  {
    EntryWireValid(e);
    DecodeEncode(e.requestID, []);
  }

  /** The decoder on an encoded list: the entries with version, address family and identifier made
      explicit, if every version is 4, 6 or left to the address; an error otherwise. */
  lemma {:induction false} AddressRoundTrip(es: seq<AddressEntry>)
    requires forall i | 0 <= i < |es| :: es[i].Encodable()
    ensures var ws := EntryWires(es);
      ParseAll(Flatten(ws, |es|), 0, false, []) ==
        if forall i | 0 <= i < |es| :: KnownVersion(es[i].WireVersion()) then Ok(Meanings(ws, |es|)) else Err(InvalidCapsule)
  {
    var ws := EntryWires(es);
    var p := Flatten(ws, |es|);
    forall i | 0 <= i < |es| ensures ws[i].Valid(false) <==> KnownVersion(es[i].WireVersion()) { EntryWireValid(es[i]); }
    if forall i | 0 <= i < |es| :: KnownVersion(es[i].WireVersion()) {
      ParsesSpelled(ws, false, p, |es|);
      assert ParseAll(p, |p|, false, Meanings(ws, |es|)) == Ok(Meanings(ws, |es|));
    } else {
      var k := FirstUnknown(es);
      UnknownRefused(ws, p, k, es[k]);
    }
  }

  lemma {:induction false} UnknownRefused(ws: seq<Wire>, p: seq<byte>, k: nat, e: AddressEntry)
    requires k < |ws| && (forall i | 0 <= i < k :: ws[i].Valid(false)) && p == Flatten(ws, |ws|)
    requires e.Encodable() && !KnownVersion(e.WireVersion()) && ws[k] == EntryWire(e)
    ensures ParseAll(p, 0, false, []) == Err(InvalidCapsule)
  {
    FlattenGrows(ws, k, |ws|);
    assert ParseAll(p, |Flatten(ws, k)|, false, Meanings(ws, k)) == Err(InvalidCapsule) by {
      FlattenGrows(ws, k + 1, |ws|);
      NextBytes(ws, p, k);
      RefusesUnknown(p, |Flatten(ws, k)|, e, Meanings(ws, k));
    }
    ParsesSpelled(ws, false, p, k);
  }

  lemma {:induction false} FirstUnknown(es: seq<AddressEntry>) returns (k: nat)
    requires exists i | 0 <= i < |es| :: !KnownVersion(es[i].WireVersion())
    ensures k < |es| && !KnownVersion(es[k].WireVersion()) && forall i | 0 <= i < k :: KnownVersion(es[i].WireVersion())
  {
    k := 0;
    while KnownVersion(es[k].WireVersion())
      invariant k < |es| && forall i | 0 <= i < k :: KnownVersion(es[i].WireVersion())
      decreases |es| - k
    {
      k := k + 1;
    }
  }

  lemma {:induction false} RefusesUnknown(p: seq<byte>, at: nat, e: AddressEntry, done: seq<Raw>)
    requires e.Encodable() && !KnownVersion(e.WireVersion())
    requires var b := EntryWire(e).Bytes(); at + |b| <= |p| && p[at..at + |b|] == b
    ensures ParseAll(p, at, false, done) == Err(InvalidCapsule)
  {
    var w := EntryWire(e);
    var id, hi := w.id, at + |w.Bytes()|;
    WireSlices(p, at, |id|, hi, w);
    WrittenId(e.requestID, id);
    ReadId(p[at..], id);
    assert p[at + |id|] == p[at + |id|..hi][0];
  }

  lemma {:induction false} WrittenId(requestID: nat, id: seq<byte>)
    requires requestID < TwoTo64 && id == EncodeVarint(requestID)
    ensures id != [] && |id| == Announced(id[0])
  {
    assert id + [] == id;
    DecodeEncode(requestID, []);
    DecodeExtent(id);
  }

  predicate SettledRange(r: RouteRange) {
    || (r.version == 4 && r.start.Ip4? && r.end.Ip4?)
    || (r.version == 6 && r.start.Ip6? && r.end.Ip6? && r.start.zone == "" && r.end.zone == "")
  }

  lemma {:induction false} RangeWireMeaning(r: RouteRange)
    requires r.Encodable() && KnownVersion(r.WireVersion())
    ensures RangeWire(r).Valid(true) && (RangeOf(RangeWire(r).Meaning()) == r <==> SettledRange(r))
  {
    var a, b := IpBytes(r.start, r.WireVersion()), IpBytes(r.end, r.WireVersion());
    assert (a + b)[..|a|] == a && (a + b)[|a|..] == b;
  }

  lemma {:induction false} RouteRoundTrip(rs: seq<RouteRange>)
    requires forall i | 0 <= i < |rs| :: rs[i].Encodable() && KnownVersion(rs[i].WireVersion())
    ensures var ws := RangeWires(rs); ParseAll(Flatten(ws, |rs|), 0, true, []) == Ok(Meanings(ws, |rs|))
  {
    var ws := RangeWires(rs);
    var p := Flatten(ws, |rs|);
    forall i | 0 <= i < |rs| ensures ws[i].Valid(true) { RangeWireMeaning(rs[i]); }
    ParsesSpelled(ws, true, p, |rs|);
    assert ParseAll(p, |p|, true, Meanings(ws, |rs|)) == Ok(Meanings(ws, |rs|));
  }

  lemma {:induction false} MeaningsAt(ws: seq<Wire>, n: nat, i: nat)
    requires i < n <= |ws|
    ensures Meanings(ws, n)[i] == ws[i].Meaning()
    decreases n
  {
    if i < n - 1 { MeaningsAt(ws, n - 1, i); }
  }

  /** Well-formed entries come back unchanged, whatever their number, and no others do. */
  lemma {:induction false} AddressListReturns(es: seq<AddressEntry>)
    requires forall i | 0 <= i < |es| :: es[i].Encodable() && KnownVersion(es[i].WireVersion())
    ensures Entries(Meanings(EntryWires(es), |es|)) == es <==> forall i | 0 <= i < |es| :: Settled(es[i])
  {
    var ws := EntryWires(es);
    forall i | 0 <= i < |es| ensures Entries(Meanings(ws, |es|))[i] == es[i] <==> Settled(es[i]) {
      MeaningsAt(ws, |es|, i);
      SettledExactly(es[i]);
    }
  }

  lemma {:induction false} RouteListReturns(rs: seq<RouteRange>)
    requires forall i | 0 <= i < |rs| :: rs[i].Encodable() && KnownVersion(rs[i].WireVersion())
    ensures Ranges(Meanings(RangeWires(rs), |rs|)) == rs <==> forall i | 0 <= i < |rs| :: SettledRange(rs[i])
  {
    var ws := RangeWires(rs);
    forall i | 0 <= i < |rs| ensures Ranges(Meanings(ws, |rs|))[i] == rs[i] <==> SettledRange(rs[i]) {
      MeaningsAt(ws, |rs|, i);
      RangeWireMeaning(rs[i]);
    }
  }
}
