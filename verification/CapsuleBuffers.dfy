/**
  The capsule encoders and decoders as they run (tunnel/masque/capsule.go): writing into
  caller buffers, advancing an offset, filling heap, arena or slab entries.
*/
module CapsuleBuffers {
  import opened Optional
  import opened Words
  import opened Varint
  import opened Capsules

  /** Go's copy into b[at..], or one indexed store. */
  method Append(b: array<byte>, at: nat, s: seq<byte>) returns (next: nat)
    requires at + |s| <= b.Length
    modifies b
    ensures next == at + |s| && b[..next] == old(b[..at]) + s
    ensures forall i | next <= i < b.Length :: b[i] == old(b[i])
  {
    forall i | 0 <= i < |s| { b[at + i] := s[i]; }
    next := at + |s|;
  }

  lemma {:induction false} Regroup(s: seq<byte>, a: seq<byte>, b: seq<byte>, c: seq<byte>, d: seq<byte>)
    ensures s + a + b + c + d == s + (a + b + c + d)
    ensures s + b + c + a + d == s + ([] + b + (c + a) + d)
  {
  }

  // ----- encoders -----

  /** One entry. A strict encoder gives up on an unknown version, after writing it. */
  method PutEntry(e: AddressEntry, b: array<byte>, at: nat, strict: bool) returns (r: Option<nat>)
    requires e.Valid() && at + Size(e.requestID) + 1 <= b.Length
    requires !strict || KnownVersion(e.WireVersion()) ==> e.Encodable() && at + |EntryWire(e).Bytes()| <= b.Length
    modifies b
    ensures r.None? <==> strict && !KnownVersion(e.WireVersion())
    ensures r.Some? ==>
      && r.value == at + |EntryWire(e).Bytes()| && b[..r.value] == old(b[..at]) + EntryWire(e).Bytes()
      && forall i | r.value <= i < b.Length :: b[i] == old(b[i])
  {
    ghost var before := b[..at];
    var n := EncodeVarintSlice(e.requestID, b, at);
    var offset := at + n;
    var ver := e.WireVersion();
    offset := Append(b, offset, [ver]);
    if strict && ver != 4 && ver != 6 { return None; }
    var ip := if ver == 4 then As4(e.addr) else As16(e.addr);
    offset := Append(b, offset, ip);
    offset := Append(b, offset, [e.prefixLength]);
    Regroup(before, EncodeVarint(e.requestID), [ver], ip, [e.prefixLength]);
    r := Some(offset);
  }

  lemma {:induction false} AssignRoom(entries: seq<AddressEntry>, ws: seq<Wire>, i: nat, room: nat)
    requires i < |entries| && (forall j | 0 <= j < |entries| :: entries[j].Encodable()) && ws == EntryWires(entries)
    requires |Flatten(ws, |ws|)| <= room
    ensures var e, at := entries[i], |Flatten(ws, i)|;
      && e.Encodable() && ws[i] == EntryWire(e) && at + |EntryWire(e).Bytes()| <= room
      && at + Size(e.requestID) + 1 <= room
  {
    FlattenGrows(ws, i + 1, |ws|);
  }

  method EncodeAddressAssignPayload(entries: seq<AddressEntry>, b: array<byte>) returns (offset: nat)
    requires forall i | 0 <= i < |entries| :: entries[i].Encodable()
    requires |Flatten(EntryWires(entries), |entries|)| <= b.Length
    modifies b
    ensures offset == |Flatten(EntryWires(entries), |entries|)|
    ensures b[..offset] == Flatten(EntryWires(entries), |entries|)
    ensures forall i | offset <= i < b.Length :: b[i] == old(b[i])
  {
    ghost var ws := EntryWires(entries);
    offset := 0;
    for i := 0 to |entries|
      invariant offset == |Flatten(ws, i)| <= b.Length
      invariant b[..offset] == Flatten(ws, i) && forall j | offset <= j < b.Length :: b[j] == old(b[j])
    {
      AssignRoom(entries, ws, i, b.Length);
      var r := PutEntry(entries[i], b, offset, false);
      offset := r.value;
    }
  }

  /** How many leading versions the strict encoders accept. */
  function KnownCount(versions: seq<byte>): (k: nat)
    ensures k <= |versions|
    ensures forall i | 0 <= i < k :: KnownVersion(versions[i])
    ensures k < |versions| ==> !KnownVersion(versions[k])
  {
    if versions == [] || !KnownVersion(versions[0]) then 0 else 1 + KnownCount(versions[1..])
  }

  function EntryVersions(entries: seq<AddressEntry>): (vs: seq<byte>)
    ensures |vs| == |entries|
  {
    seq(|entries|, i requires 0 <= i < |entries| => entries[i].WireVersion())
  }

  function RangeVersions(ranges: seq<RouteRange>): (vs: seq<byte>)
    ensures |vs| == |ranges|
  {
    seq(|ranges|, i requires 0 <= i < |ranges| => ranges[i].WireVersion())
  }

  lemma {:induction false} KnownFurther(versions: seq<byte>, i: nat, k: nat)
    requires k == KnownCount(versions) && i <= k && i < |versions|
    ensures i < k <==> KnownVersion(versions[i])
  {
  }

  /** What the strict encoder needs for the i-th entry, from the room for all of them. */
  lemma {:induction false} EntryRoom(entries: seq<AddressEntry>, k: nat, ws: seq<Wire>, i: nat, room: nat)
    requires k == KnownCount(EntryVersions(entries)) && i <= k && i < |entries|
    requires (forall j | 0 <= j < k :: entries[j].Encodable()) && ws == EntryWires(entries[..k])
    requires var used := |Flatten(ws, k)|;
      if k == |entries| then used <= room else entries[k].Valid() && used + Size(entries[k].requestID) + 1 <= room
    ensures var e, at := entries[i], |Flatten(ws, i)|;
      && e.Valid() && at + Size(e.requestID) + 1 <= room && (i < k <==> KnownVersion(e.WireVersion()))
      && (i < k ==> e.Encodable() && ws[i] == EntryWire(e) && at + |EntryWire(e).Bytes()| <= room)
  {
    KnownFurther(EntryVersions(entries), i, k);
    if i < k {
      assert entries[..k][i] == entries[i] && ws[i] == EntryWire(entries[i]);
      LastBytes(ws, i, k);
    }
  }

  lemma {:induction false} LastBytes(ws: seq<Wire>, i: nat, k: nat)
    requires i < k <= |ws|
    ensures |Flatten(ws, i)| + |ws[i].Bytes()| <= |Flatten(ws, k)|
  {
    FlattenGrows(ws, i + 1, k);
  }

  method EncodeAddressRequestPayload(entries: seq<AddressEntry>, b: array<byte>) returns (r: Result<nat>)
    requires forall i | 0 <= i < KnownCount(EntryVersions(entries)) :: entries[i].Encodable()
    requires var k := KnownCount(EntryVersions(entries));
      var used := |Flatten(EntryWires(entries[..k]), k)|;
      if k == |entries| then used <= b.Length else entries[k].Valid() && used + Size(entries[k].requestID) + 1 <= b.Length
    modifies b
    ensures var k := KnownCount(EntryVersions(entries));
      if entries == [] then r == Err(EmptyAddressRequest)
      else if k < |entries| then r == Err(InvalidCapsule)
      else
        var p := Flatten(EntryWires(entries[..k]), k);
        r == Ok(|p|) && b[..|p|] == p && forall i | |p| <= i < b.Length :: b[i] == old(b[i])
  {
    if |entries| == 0 { return Err(EmptyAddressRequest); }
    ghost var k := KnownCount(EntryVersions(entries));
    r := EncodeStrict(entries, b, k, EntryWires(entries[..k]));
  }

  /** The loop over the entries, k of which have known versions, with the wire entries ws. */
  method EncodeStrict(entries: seq<AddressEntry>, b: array<byte>, ghost k: nat, ghost ws: seq<Wire>) returns (r: Result<nat>)
    requires k == KnownCount(EntryVersions(entries)) && (forall i | 0 <= i < k :: entries[i].Encodable())
    requires ws == EntryWires(entries[..k])
    requires var used := |Flatten(ws, k)|;
      if k == |entries| then used <= b.Length else entries[k].Valid() && used + Size(entries[k].requestID) + 1 <= b.Length
    modifies b
    ensures k < |entries| ==> r == Err(InvalidCapsule)
    ensures k == |entries| ==>
      var p := Flatten(ws, k); r == Ok(|p|) && b[..|p|] == p && forall i | |p| <= i < b.Length :: b[i] == old(b[i])
  {
    var offset := 0;
    for i := 0 to |entries|
      invariant i <= k && offset == |Flatten(ws, i)| <= b.Length
      invariant b[..offset] == Flatten(ws, i) && forall j | offset <= j < b.Length :: b[j] == old(b[j])
    {
      EntryRoom(entries, k, ws, i, b.Length);
      var w := PutEntry(entries[i], b, offset, true);
      if w.None? { return Err(InvalidCapsule); }
      offset := w.value;
    }
    r := Ok(offset);
  }

  /** One range, or the giving up after an unknown version. */
  method PutRange(e: RouteRange, b: array<byte>, at: nat) returns (r: Option<nat>)
    requires e.Valid() && at + 1 <= b.Length
    requires KnownVersion(e.WireVersion()) ==> e.Encodable() && at + |RangeWire(e).Bytes()| <= b.Length
    modifies b
    ensures r.None? <==> !KnownVersion(e.WireVersion())
    ensures r.Some? ==>
      && r.value == at + |RangeWire(e).Bytes()| && b[..r.value] == old(b[..at]) + RangeWire(e).Bytes()
      && forall i | r.value <= i < b.Length :: b[i] == old(b[i])
  {
    ghost var before := b[..at];
    var ver := e.WireVersion();
    var next := Append(b, at, [ver]);
    if ver != 4 && ver != 6 { return None; }
    var first, second := if ver == 4 then As4(e.start) else As16(e.start), if ver == 4 then As4(e.end) else As16(e.end);
    next := Append(b, next, first);
    next := Append(b, next, second);
    next := Append(b, next, [e.protocol]);
    Regroup(before, second, [ver], first, [e.protocol]);
    r := Some(next);
  }

  lemma {:induction false} RangeRoom(ranges: seq<RouteRange>, k: nat, ws: seq<Wire>, i: nat, room: nat)
    requires k == KnownCount(RangeVersions(ranges)) && i <= k && i < |ranges|
    requires (forall j | 0 <= j < k :: ranges[j].Encodable()) && ws == RangeWires(ranges[..k])
    requires var used := |Flatten(ws, k)|; if k == |ranges| then used <= room else ranges[k].Valid() && used + 1 <= room
    ensures var e, at := ranges[i], |Flatten(ws, i)|;
      && e.Valid() && at + 1 <= room && (i < k <==> KnownVersion(e.WireVersion()))
      && (i < k ==> e.Encodable() && ws[i] == RangeWire(e) && at + |RangeWire(e).Bytes()| <= room)
  {
    KnownFurther(RangeVersions(ranges), i, k);
    if i < k {
      assert ranges[..k][i] == ranges[i] && ws[i] == RangeWire(ranges[i]);
      LastBytes(ws, i, k);
    }
  }

  method EncodeRouteAdvertisementPayload(ranges: seq<RouteRange>, b: array<byte>) returns (r: Result<nat>)
    requires forall i | 0 <= i < KnownCount(RangeVersions(ranges)) :: ranges[i].Encodable()
    requires var k := KnownCount(RangeVersions(ranges));
      var used := |Flatten(RangeWires(ranges[..k]), k)|;
      if k == |ranges| then used <= b.Length else ranges[k].Valid() && used + 1 <= b.Length
    modifies b
    ensures var k := KnownCount(RangeVersions(ranges));
      if k < |ranges| then r == Err(InvalidCapsule)
      else
        var p := Flatten(RangeWires(ranges[..k]), k);
        r == Ok(|p|) && b[..|p|] == p && forall i | |p| <= i < b.Length :: b[i] == old(b[i])
  {
    ghost var k := KnownCount(RangeVersions(ranges));
    ghost var ws := RangeWires(ranges[..k]);
    var offset := 0;
    for i := 0 to |ranges|
      invariant i <= k && offset == |Flatten(ws, i)| <= b.Length
      invariant b[..offset] == Flatten(ws, i) && forall j | offset <= j < b.Length :: b[j] == old(b[j])
    {
      RangeRoom(ranges, k, ws, i, b.Length);
      var w := PutRange(ranges[i], b, offset);
      if w.None? { return Err(InvalidCapsule); }
      offset := w.value;
    }
    r := Ok(offset);
  }

  // ----- decoders -----

  /** The parsing steps of the two plain address decoders. */
  method ReadAddress(payload: seq<byte>, at: nat) returns (r: Parsed)
    requires at < |payload|
    ensures r == Parse(payload, at, false)
  {
    var d := DecodeVarint(payload[at..]);
    if d.None? { return Fail(Truncated); }
    DecodeExtent(payload[at..]);
    var offset := at + d.value.readLen;
    if offset + 2 > |payload| { return Fail(InvalidCapsule); }
    var ipVer := payload[offset];
    offset := offset + 1;
    var ip;
    if ipVer == 4 {
      if offset + 4 + 1 > |payload| { return Fail(InvalidCapsule); }
      ip := payload[offset..offset + 4];
      offset := offset + 4;
    } else if ipVer == 6 {
      if offset + 16 + 1 > |payload| { return Fail(InvalidCapsule); }
      ip := payload[offset..offset + 16];
      offset := offset + 16;
    } else {
      return Fail(InvalidCapsule);
    }
    r := Item(Raw(d.value.val, ipVer, ip, payload[offset]), offset + 1);
  }

  /** DecodeAddressAssignPayloadTo, and DecodeAddressRequestPayloadTo, which is the same loop. */
  method DecodeAddressPayloadTo(payload: seq<byte>, dst0: seq<AddressEntry>) returns (r: Result<seq<AddressEntry>>)
    ensures r == match ParseAll(payload, 0, false, []) case Err(e) => Err(e) case Ok(rs) => Ok(dst0 + Entries(rs))
  {
    var dst, offset := dst0, 0;
    ghost var rs: seq<Raw> := [];
    assert dst0 + Entries(rs) == dst0;
    while offset < |payload|
      invariant 0 <= offset <= |payload| && dst == dst0 + Entries(rs)
      invariant ParseAll(payload, offset, false, rs) == ParseAll(payload, 0, false, [])
    {
      var e := ReadAddress(payload, offset);
      if e.Fail? { return Err(e.error); }
      dst := dst + [EntryOf(e.raw)];
      rs := rs + [e.raw];
      offset := e.next;
    }
    r := Ok(dst);
  }

  method ReadRange(payload: seq<byte>, at: nat) returns (r: Parsed)
    requires at < |payload|
    ensures r == Parse(payload, at, true)
  {
    var ipVer, offset := payload[at], at + 1;
    var n;
    if ipVer == 4 {
      if offset + 4 + 4 + 1 > |payload| { return Fail(InvalidCapsule); }
      n := 4;
    } else if ipVer == 6 {
      if offset + 16 + 16 + 1 > |payload| { return Fail(InvalidCapsule); }
      n := 16;
    } else {
      return Fail(InvalidCapsule);
    }
    var first, second := payload[offset..offset + n], payload[offset + n..offset + 2 * n];
    assert first + second == payload[offset..offset + 2 * n];
    r := Item(Raw(0, ipVer, first + second, payload[offset + 2 * n]), offset + 2 * n + 1);
  }

  method DecodeRouteAdvertisementPayloadTo(payload: seq<byte>, dst0: seq<RouteRange>) returns (r: Result<seq<RouteRange>>)
    ensures r == match ParseAll(payload, 0, true, []) case Err(e) => Err(e) case Ok(rs) => Ok(dst0 + Ranges(rs))
  {
    var dst, offset := dst0, 0;
    ghost var rs: seq<Raw> := [];
    assert dst0 + Ranges(rs) == dst0;
    while offset < |payload|
      invariant 0 <= offset <= |payload| && dst == dst0 + Ranges(rs)
      invariant ParseAll(payload, offset, true, rs) == ParseAll(payload, 0, true, [])
    {
      var e := ReadRange(payload, offset);
      if e.Fail? { return Err(e.error); }
      dst := dst + [RangeOf(e.raw)];
      rs := rs + [e.raw];
      offset := e.next;
    }
    r := Ok(dst);
  }

  // ----- plain-old-data entries -----

  class Pod {
    var requestID: nat
    var version: byte
    var prefixLength: byte
    var rawIP: seq<byte>

    constructor ()
    {
      requestID, version, prefixLength, rawIP := 0, 0, 0, NoBytes16;
    }

    /** The entry with these wire fields: an IPv4 address fills the first four of the sixteen bytes. */
    ghost predicate Shows(r: Raw)
      reads this
    {
      && requestID == r.id && version == r.version && prefixLength == r.last
      && Padded(r.ip, rawIP)
    }

    method Fill(id: nat, ver: byte, last: byte, raw: seq<byte>)
      modifies this
      ensures requestID == id && version == ver && prefixLength == last && rawIP == raw
    {
      requestID, version, prefixLength, rawIP := id, ver, last, raw;
    }
  }

  /** A slab allocator as its caller sees it: it hands out its free entries one by one, with
      whatever they held before, and null when none is left. */
  class Slab {
    var free: seq<Pod>

    constructor (pods: seq<Pod>)
      requires Distinct(pods)
      ensures free == pods
    {
      free := pods;
    }

    method Alloc() returns (p: Pod?)
      modifies this
      ensures old(free) == [] ==> p == null && free == []
      ensures old(free) != [] ==> p == old(free)[0] && free == old(free)[1..]
    {
      if free == [] { return null; }
      p := free[0];
      free := free[1..];
    }
  }

  ghost predicate Distinct(pods: seq<Pod>) {
    forall i, j | 0 <= i < j < |pods| :: pods[i] != pods[j]
  }

  ghost predicate AllShow(pods: seq<Pod>, rs: seq<Raw>)
    reads pods
  {
    |pods| == |rs| && forall i | 0 <= i < |pods| :: pods[i].Shows(rs[i])
  }

  /** An address copied to the front of sixteen zero bytes. */
  ghost predicate Padded(ip: seq<byte>, raw: seq<byte>) {
    |raw| == 16 && ip <= raw && forall i | |ip| <= i < 16 :: raw[i] == 0
  }

  datatype PodFields = PodFields(id: nat, version: byte, last: byte, rawIP: seq<byte>, next: nat) | NoPod(error: Error)

  /** The parsing steps of the arena and the slab decoder, with a zeroed sixteen-byte address. */
  method ReadPod(payload: seq<byte>, at: nat) returns (r: PodFields)
    requires at < |payload|
    ensures match Parse(payload, at, false)
      case Fail(e) => r == NoPod(e)
      case Item(raw, next) =>
        r.PodFields? && r.id == raw.id && r.version == raw.version && r.last == raw.last && r.next == next && Padded(raw.ip, r.rawIP)
  {
    var d := DecodeVarint(payload[at..]);
    if d.None? { return NoPod(Truncated); }
    DecodeExtent(payload[at..]);
    var offset := at + d.value.readLen;
    if offset + 2 > |payload| { return NoPod(InvalidCapsule); }
    var ipVer, rawIP := payload[offset], NoBytes16;
    offset := offset + 1;
    if ipVer == 4 {
      if offset + 4 + 1 > |payload| { return NoPod(InvalidCapsule); }
      rawIP := payload[offset..offset + 4] + rawIP[4..];
      offset := offset + 4;
    } else if ipVer == 6 {
      if offset + 16 + 1 > |payload| { return NoPod(InvalidCapsule); }
      rawIP := payload[offset..offset + 16];
      offset := offset + 16;
    } else {
      return NoPod(InvalidCapsule);
    }
    r := PodFields(d.value.val, ipVer, payload[offset], rawIP, offset + 1);
  }

  /** The arena variant: every entry is newly allocated. */
  method DecodeAddressAssignPayloadPOD(payload: seq<byte>) returns (r: Result<seq<Pod>>)
    ensures match ParseAll(payload, 0, false, [])
      case Err(e) => r == Err(e)
      case Ok(rs) => r.Ok? && AllShow(r.value, rs) && Distinct(r.value) && fresh(r.value)
  {
    var entries: seq<Pod>, offset := [], 0;
    ghost var rs: seq<Raw> := [];
    while offset < |payload|
      invariant 0 <= offset <= |payload|
      invariant ParseAll(payload, offset, false, rs) == ParseAll(payload, 0, false, [])
      invariant AllShow(entries, rs) && Distinct(entries) && fresh(entries)
    {
      var e := ReadPod(payload, offset);
      if e.NoPod? { return Err(e.error); }
      ghost var raw := Parse(payload, offset, false).raw;
      offset := e.next;
      var pod := new Pod();
      pod.Fill(e.id, e.version, e.last, e.rawIP);
      entries := entries + [pod];
      rs := rs + [raw];
    }
    r := Ok(entries);
  }

  method NextPod(slab: Slab, id: nat, ver: byte, last: byte, raw: seq<byte>) returns (pod: Pod)
    modifies slab, if slab.free == [] then {} else {slab.free[0]}
    ensures pod.requestID == id && pod.version == ver && pod.prefixLength == last && pod.rawIP == raw
    ensures if old(slab.free) == [] then fresh(pod) && slab.free == [] else pod == old(slab.free)[0] && slab.free == old(slab.free)[1..]
  {
    var slot := slab.Alloc();
    if slot == null { pod := new Pod(); } else { pod := slot; }
    pod.Fill(id, ver, last, raw);
  }

  /** The slab variant: slab entries while there are any, then the heap. Entries never alias, and
      nothing that a reused slab entry held before shows through. */
  method DecodeAddressAssignPayloadPODSlab(slab: Slab, payload: seq<byte>) returns (r: Result<seq<Pod>>)
    requires Distinct(slab.free)
    modifies slab, slab.free
    ensures match ParseAll(payload, 0, false, [])
      case Err(e) => r == Err(e)
      case Ok(rs) => r.Ok? && AllShow(r.value, rs) && Distinct(r.value)
    ensures Distinct(slab.free)
    ensures r.Ok? ==> forall p | p in r.value :: p !in slab.free && (p in old(slab.free) || fresh(p))
  {
    var entries: seq<Pod>, offset := [], 0;
    ghost var rs: seq<Raw> := [];
    while offset < |payload|
      invariant 0 <= offset <= |payload|
      invariant ParseAll(payload, offset, false, rs) == ParseAll(payload, 0, false, [])
      invariant AllShow(entries, rs) && Distinct(entries)
      invariant Distinct(slab.free) && forall p | p in slab.free :: p in old(slab.free)
      invariant forall p | p in entries :: p !in slab.free && (p in old(slab.free) || fresh(p))
    {
      var e := ReadPod(payload, offset);
      if e.NoPod? { return Err(e.error); }
      ghost var raw := Parse(payload, offset, false).raw;
      offset := e.next;
      assert slab.free != [] ==> slab.free[0] in slab.free;
      var pod := NextPod(slab, e.id, e.version, e.last, e.rawIP);
      assert pod !in entries;
      entries := entries + [pod];
      rs := rs + [raw];
    }
    r := Ok(entries);
  }
}
