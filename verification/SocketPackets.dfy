/**
  The Socket.IO packet codec (x/socketio/packet.go). Wire bytes are characters.
*/
module SocketPackets {
  import opened Optional
  import opened Text

  const BinaryEvent := '5'
  const BinaryAck := '6'
  const MaxBinaryAttachments := 128

  /** Identifiers and attachment counts are 64-bit integers. */
  datatype Packet = Packet(kind: char, ns: string, id: Option<int>, attachments: int, data: string) {
    predicate Binary() { kind == BinaryEvent || kind == BinaryAck }
    predicate DefaultNs() { ns == "" || ns == "/" }
    predicate Valid() { id.Some? ==> id.value <= MaxInt }
  }

  // ----- encoding -----

  function CountPart(p: Packet): string { if p.Binary() then Itoa(p.attachments) + "-" else "" }
  function NsPart(p: Packet): string { if p.DefaultNs() then "" else p.ns + "," }
  function IdPart(p: Packet): string { if p.id.Some? then Itoa(p.id.value) else "" }

  function EncodePacket(p: Packet): string {
    [p.kind] + CountPart(p) + NsPart(p) + IdPart(p) + p.data
  }

  // ----- decoding -----

  datatype Result = Ok(packet: Packet) | Empty | Invalid

  datatype Count = Count(n: int, rest: string) | NoCount

  function ReadCount(s: string): Count {
    var i := IndexOf(s, '-');
    var n := Atoi(s[..i]);
    if n.None? || n.value < 0 || n.value > MaxBinaryAttachments then NoCount
    else Count(n.value, if i < |s| then s[i + 1..] else "")
  }

  datatype Ns = Ns(name: string, rest: string)

  function ReadNs(s: string): Ns {
    if s == "" || s[0] != '/' then Ns("/", s) else
      var i := IndexOf(s, ',');
      Ns(s[..i], if i < |s| then s[i + 1..] else "")
  }

  datatype Id = Id(id: Option<int>, rest: string)

  /** A number too large for 64 bits becomes the largest one: the error is dropped. */
  function ReadId(s: string): Id {
    var k := DigitRun(s);
    if k == 0 then Id(None, s)
    else
      var n: int := Decimal(s[..k]);
      Id(Some(if n > MaxInt then MaxInt else n), s[k..])
  }

  function ReadTail(kind: char, attachments: int, s: string): Packet {
    var ns := ReadNs(s);
    var id := ReadId(ns.rest);
    Packet(kind, ns.name, id.id, attachments, id.rest)
  }

  function Decode(data: string): Result {
    if data == "" then Empty
    else if data[0] == BinaryEvent || data[0] == BinaryAck then
      match ReadCount(data[1..])
      case NoCount => Invalid
      case Count(n, rest) => Ok(ReadTail(data[0], n, rest))
    else Ok(ReadTail(data[0], 0, data[1..]))
  }

  // ----- the decoder as it runs, advancing an offset -----

  method ParseAttachments(data: string, offset: nat) returns (n: Option<int>, next: nat)
    requires offset <= |data|
    ensures next <= |data|
    ensures match ReadCount(data[offset..]) case NoCount => n == None case Count(c, rest) => n == Some(c) && data[next..] == rest
  {
    var i := offset;
    while i < |data| && data[i] != '-'
      invariant offset <= i <= |data| && forall k | offset <= k < i :: data[k] != '-'
    {
      i := i + 1;
    }
    var s := data[offset..];
    IndexOfFirst(s, '-', i - offset);
    assert s[..i - offset] == data[offset..i];
    n, next := Atoi(data[offset..i]), offset;
    if n.None? || n.value < 0 || n.value > MaxBinaryAttachments { return None, next; }
    if i < |data| {
      assert s[i - offset + 1..] == data[i + 1..];
      i := i + 1;
    }
    next := i;
  }

  method ParseNamespace(data: string, offset: nat) returns (ns: string, next: nat)
    requires offset <= |data|
    ensures next <= |data| && Ns(ns, data[next..]) == ReadNs(data[offset..])
  {
    var i := offset;
    if i >= |data| || data[i] != '/' { return "/", i; }
    while i < |data| && data[i] != ','
      invariant offset <= i <= |data| && forall k | offset <= k < i :: data[k] != ','
    {
      i := i + 1;
    }
    var s := data[offset..];
    IndexOfFirst(s, ',', i - offset);
    ns := data[offset..i];
    assert s[..i - offset] == ns;
    if i < |data| {
      assert s[i - offset + 1..] == data[i + 1..];
      i := i + 1;
    }
    next := i;
  }

  method ParseAckID(data: string, offset: nat) returns (id: Option<int>, next: nat)
    requires offset <= |data|
    ensures next <= |data| && Id(id, data[next..]) == ReadId(data[offset..])
  {
    var i := offset;
    var s := data[offset..];
    if i >= |data| || data[i] < '0' || data[i] > '9' { return None, i; }
    while i < |data| && '0' <= data[i] <= '9'
      invariant offset <= i <= |data| && forall k | offset <= k < i :: IsDigit(data[k])
    {
      i := i + 1;
    }
    assert s[..i - offset] == data[offset..i] && s[i - offset..] == data[i..];
    DigitRunIs(s, i - offset);
    var n: int := Decimal(data[offset..i]);
    id, next := Some(if n > MaxInt then MaxInt else n), i;
  }

  method DecodePacket(data: string) returns (r: Result)
    ensures r == Decode(data)
  {
    if |data| == 0 { return Empty; }
    var kind, offset, attachments := data[0], 1, 0;
    if kind == BinaryEvent || kind == BinaryAck {
      var n, next := ParseAttachments(data, offset);
      if n.None? { return Invalid; }
      attachments, offset := n.value, next;
    }
    var ns, next := ParseNamespace(data, offset);
    var id, last := ParseAckID(data, next);
    r := Ok(Packet(kind, ns, id, attachments, data[last..]));
  }

  // ----- the round trip -----

  /** The packet as decoding names it: the default namespace is "/", and only binary packets count
      attachments. */
  function Canonical(p: Packet): Packet {
    p.(ns := if p.DefaultNs() then "/" else p.ns, attachments := if p.Binary() then p.attachments else 0)
  }

  predicate CountFits(p: Packet) { p.Binary() ==> 0 <= p.attachments <= MaxBinaryAttachments }
  predicate NsFits(p: Packet) { p.DefaultNs() || (p.ns[0] == '/' && ',' !in p.ns) }
  predicate IdFits(p: Packet) { p.id.Some? ==> p.id.value >= 0 }

  /** Data may begin with a digit never, with a slash only behind a namespace or an identifier. */
  predicate DataFits(p: Packet) {
    p.data != "" ==> !IsDigit(p.data[0]) && (p.DefaultNs() && p.id.None? ==> p.data[0] != '/')
  }

  predicate Faithful(p: Packet) { CountFits(p) && NsFits(p) && IdFits(p) && DataFits(p) }

  predicate NoDigitFirst(s: string) { s != "" ==> !IsDigit(s[0]) }

  /** An identifier and the data behind it are told apart exactly when the identifier is not
      negative and the data does not begin with a digit. */
  lemma {:induction false} IdRead(p: Packet)
    requires p.Valid()
    ensures ReadId(IdPart(p) + p.data) == Id(p.id, p.data) <==> IdFits(p) && NoDigitFirst(p.data)
  {
    var s, data := IdPart(p) + p.data, p.data;
    if p.id.None? {
      assert s == data;
    } else if p.id.value < 0 {
      assert s[0] == '-';
      DigitRunIs(s, 0);
    } else {
      IdReadSome(p.id.value, data);
    }
  }

  lemma {:induction false} IdReadSome(n: int, data: string)
    requires 0 <= n <= MaxInt
    ensures ReadId(Digits(n) + data) == Id(Some(n), data) <==> NoDigitFirst(data)
  {
    var d := Digits(n);
    var s := d + data;
    assert s[..|d|] == d && s[|d|..] == data;
    DecimalDigits(n);
    if NoDigitFirst(data) {
      DigitRunIs(s, |d|);
    } else {
      assert forall i | 0 <= i <= |d| :: IsDigit(s[i]);
      assert |s[DigitRun(s)..]| < |data|;
    }
  }

  /** A namespace and what is behind it. */
  lemma {:induction false} NsRead(ns: string, rest: string)
    requires ns != "" && ns != "/"
    ensures ReadNs(ns + "," + rest) == Ns(ns, rest) <==> ns[0] == '/' && ',' !in ns
    ensures ReadNs(ns + "," + rest).name == ns ==> ReadNs(ns + "," + rest).rest == rest
  {
    var s := ns + "," + rest;
    assert s[0] == ns[0] && s[|ns|] == ',';
    if ns[0] == '/' {
      if ',' in ns {
        var i := IndexOf(ns, ',');
        IndexOfSpec(ns, ',');
        Found(ns, ',');
        forall k | 0 <= k < i ensures s[k] != ',' { assert s[k] == ns[k]; }
        IndexOfFirst(s, ',', i);
      } else {
        forall k | 0 <= k < |ns| ensures s[k] != ',' { assert s[k] == ns[k]; }
        IndexOfFirst(s, ',', |ns|);
        assert s[..|ns|] == ns && s[|ns| + 1..] == rest;
      }
    }
  }

  lemma {:induction false} Found(s: string, c: char)
    requires c in s
    ensures IndexOf(s, c) < |s|
  {
    IndexOfSpec(s, c);
    var k :| 0 <= k < |s| && s[k] == c;
  }

  /** Nothing that was read is longer than the input. */
  lemma {:induction false} TailShrinks(s: string)
    requires s != "" && s[0] == '/'
    ensures |ReadTail('0', 0, s).data| < |s|
  {
  }

  lemma {:induction false} TailRead(p: Packet, a: int)
    requires p.Valid()
    ensures ReadTail(p.kind, a, NsPart(p) + IdPart(p) + p.data) == Canonical(p).(attachments := a)
      <==> NsFits(p) && IdFits(p) && DataFits(p)
  {
    var tail := IdPart(p) + p.data;
    IdRead(p);
    if p.DefaultNs() {
      assert NsPart(p) + IdPart(p) + p.data == tail;
      IdStart(p);
      if tail != "" && tail[0] == '/' { TailShrinks(tail); }
    } else {
      assert NsPart(p) + IdPart(p) + p.data == p.ns + "," + tail;
      NsRead(p.ns, tail);
    }
  }

  /** An encoded identifier never looks like a namespace. */
  lemma {:induction false} IdStart(p: Packet)
    ensures var s := IdPart(p) + p.data; s != "" && s[0] == '/' <==> p.id.None? && p.data != "" && p.data[0] == '/'
  {
    if p.id.Some? {
      assert (IdPart(p) + p.data)[0] == Itoa(p.id.value)[0];
      assert p.id.value >= 0 ==> IsDigit(Digits(p.id.value)[0]);
    } else {
      assert IdPart(p) + p.data == p.data;
    }
  }

  lemma {:induction false} CountRead(n: int, rest: string)
    ensures ReadCount(Itoa(n) + "-" + rest) == if 0 <= n <= MaxBinaryAttachments then Count(n, rest) else NoCount
  {
    var s := Itoa(n) + "-" + rest;
    if n < 0 {
      assert s[0] == '-';
      assert s[..0] == "";
    } else {
      var d := Digits(n);
      assert s[|d|] == '-' && s[..|d|] == d && s[|d| + 1..] == rest;
      forall k | 0 <= k < |d| ensures s[k] != '-' { assert s[k] == d[k] && IsDigit(d[k]); }
      IndexOfFirst(s, '-', |d|);
      DecimalDigits(n);
      assert IsDigit(d[0]);
    }
  }

  /** Decoding inverts encoding exactly for these packets. */
  lemma {:induction false} DecodeEncode(p: Packet)
    requires p.Valid()
    ensures Decode(EncodePacket(p)) == Ok(Canonical(p)) <==> Faithful(p)
  {
    var s, tail := EncodePacket(p), NsPart(p) + IdPart(p) + p.data;
    assert s[0] == p.kind && s[1..] == CountPart(p) + tail;
    TailRead(p, if p.Binary() then p.attachments else 0);
    if p.Binary() {
      CountRead(p.attachments, tail);
    } else {
      assert CountPart(p) + tail == tail;
    }
  }

  /** What the decoder returns is canonical; encoding and decoding it again gives it back unless
      the default namespace was spelled out in front of data that begins with a slash. */
  lemma {:induction false} DecodeAgain(data: string)
    requires Decode(data).Ok?
    ensures var p := Decode(data).packet;
      Decode(EncodePacket(p)) == Ok(p) <==> !(p.ns == "/" && p.id.None? && p.data != "" && p.data[0] == '/')
  {
    var p := Decode(data).packet;
    DecodedFits(data, p);
    DecodeEncode(p);
  }

  lemma {:induction false} DecodedFits(data: string, p: Packet)
    requires Decode(data) == Ok(p)
    ensures p.Valid() && CountFits(p) && NsFits(p) && IdFits(p) && NoDigitFirst(p.data) && Canonical(p) == p
  {
    var s := if p.Binary() then ReadCount(data[1..]).rest else data[1..];
    assert p == ReadTail(p.kind, p.attachments, s);
    NsReadFits(s);
    IdReadFits(ReadNs(s).rest);
  }

  lemma {:induction false} NsReadFits(s: string)
    ensures var ns := ReadNs(s).name; ns != "" && ns[0] == '/' && ',' !in ns
  {
    IndexOfSpec(s, ',');
  }

  lemma {:induction false} IdReadFits(s: string)
    ensures var r := ReadId(s); NoDigitFirst(r.rest) && (r.id.Some? ==> 0 <= r.id.value <= MaxInt)
  {
    var k := DigitRun(s);
    assert k < |s| ==> s[k..][0] == s[k];
  }
}
