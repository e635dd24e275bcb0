/** The MASQUE session (tunnel/masque/session.go). */
module CapsuleSession {
  // Capsules travel over a control stream (section 3.2 of RFC 9297), IP packets in datagrams
  // (section 6 of RFC 9484). The stream is a pipe that may stop accepting bytes at any point; the
  // datagram transport is a queue. The reader allocates what a header announces before reading it,
  // and allocating more than `room` bytes at once panics.

  import opened Optional
  import opened Words
  import opened Varint
  import CapsuleBuffers

  datatype Capsule = Capsule(kind: nat, payload: seq<byte>) {
    /** Types below 2^62, the range of a varint; payload lengths always are. */
    predicate Valid() { kind < VarintLimit && |payload| < VarintLimit }
  }

  datatype Error = Closed | WriteFailed | EOF | UnexpectedEOF | Panic

  function Header(c: Capsule): seq<byte>
    requires c.Valid()
  {
    EncodeVarint(c.kind) + EncodeVarint(|c.payload|)
  }

  function Frame(c: Capsule): seq<byte>
    requires c.Valid()
  {
    Header(c) + c.payload
  }

  // ----- reading, on values -----

  datatype Number = Number(val: nat, rest: seq<byte>) | NoNumber(error: Error)

  /** io.ReadFull reports EOF, not UnexpectedEOF, when it gets no byte at all. */
  function Short(got: nat): Error { if got == 0 then EOF else UnexpectedEOF }

  /** One byte, then as many more as it announces. */
  function ReadNumber(s: seq<byte>): (r: Number)
    ensures r.Number? ==> |r.rest| < |s|
  {
    if s == [] then NoNumber(EOF) else
      var n := Announced(s[0]);
      if |s| < n then NoNumber(Short(|s| - 1)) else
        DecodeExtent(s[..n]);
        Number(DecodeVarint(s[..n]).value.val, s[n..])
  }

  /** Panicked: the header was read, and the payload it announces cannot be allocated. */
  datatype Reading = Got(capsule: Capsule, rest: seq<byte>) | Failed(error: Error) | Panicked(rest: seq<byte>)

  function ReadPayload(kind: nat, len: nat, s: seq<byte>, room: nat): Reading {
    if len > room then Panicked(s) else if |s| < len then Failed(Short(|s|)) else Got(Capsule(kind, s[..len]), s[len..])
  }

  function ReadFrame(s: seq<byte>, room: nat): (r: Reading)
    ensures r.Got? ==> |r.rest| < |s|
  {
    match ReadNumber(s)
    case NoNumber(e) => Failed(e)
    case Number(kind, s1) =>
      match ReadNumber(s1)
      case NoNumber(e) => Failed(e)
      case Number(len, s2) => ReadPayload(kind, len, s2, room)
  }

  /** A varint of any length, as long as it says it is. */
  predicate IsNumber(a: seq<byte>) { a != [] && |a| == Announced(a[0]) }

  lemma {:induction false} NumberRead(s: seq<byte>, a: seq<byte>, rest: seq<byte>)
    requires IsNumber(a) && s == a + rest
    ensures DecodeVarint(a).Some? && ReadNumber(s) == Number(DecodeVarint(a).value.val, rest)
  {
    assert s[..|a|] == a && s[|a|..] == rest;
    DecodeExtent(a);
  }

  lemma {:induction false} FirstNumber(s: seq<byte>) returns (a: seq<byte>, rest: seq<byte>)
    requires ReadNumber(s).Number?
    ensures IsNumber(a) && s == a + rest && DecodeVarint(a).Some? && ReadNumber(s) == Number(DecodeVarint(a).value.val, rest)
  {
    var n := Announced(s[0]);
    a, rest := s[..n], s[n..];
    NumberRead(s, a, rest);
  }

  /** The reader panics exactly on inputs that begin with a type and a length beyond what can be
      allocated, whether or not any payload follows. */
  lemma {:induction false} PanicsExactly(s: seq<byte>, room: nat)
    ensures ReadFrame(s, room).Panicked? <==>
      exists a, b, rest :: IsNumber(a) && IsNumber(b) && s == a + (b + rest) && DecodeVarint(b).Some? && DecodeVarint(b).value.val > room
  {
    if ReadFrame(s, room).Panicked? {
      var a, s1 := FirstNumber(s);
      var b, rest := FirstNumber(s1);
    }
    if a, b, rest :| IsNumber(a) && IsNumber(b) && s == a + (b + rest) && DecodeVarint(b).Some? && DecodeVarint(b).value.val > room {
      NumberRead(s, a, b + rest);
      NumberRead(b + rest, b, rest);
    }
  }

  // ----- what a frame reads back as -----

  lemma {:induction false} ReadWhole(v: nat, rest: seq<byte>)
    requires v < VarintLimit
    ensures ReadNumber(EncodeVarint(v) + rest) == Number(v, rest)
  {
    var e := EncodeVarint(v);
    EncodedExtent(v);
    assert (e + rest)[..|e|] == e && (e + rest)[|e|..] == rest;
  }

  lemma {:induction false} EncodedExtent(v: nat)
    requires v < VarintLimit
    ensures var e := EncodeVarint(v); Announced(e[0]) == |e| && DecodeVarint(e).Some? && DecodeVarint(e).value.val == v
  {
    TagValues(8);
    DecodeEncode(v, []);
    assert EncodeVarint(v) + [] == EncodeVarint(v);
    DecodeExtent(EncodeVarint(v));
  }

  lemma {:induction false} ReadCut(v: nat, m: nat)
    requires v < VarintLimit && m < Size(v)
    ensures ReadNumber(EncodeVarint(v)[..m]) == NoNumber(if m <= 1 then EOF else UnexpectedEOF)
  {
    EncodedExtent(v);
  }

  /** A whole frame is read back, and nothing after it is touched, exactly if there is room for it. */
  lemma {:induction false} ReadsFrame(c: Capsule, rest: seq<byte>, room: nat)
    requires c.Valid()
    ensures ReadFrame(Frame(c) + rest, room) == if |c.payload| <= room then Got(c, rest) else Panicked(c.payload + rest)
  {
    var a, b := EncodeVarint(c.kind), EncodeVarint(|c.payload|);
    assert Frame(c) + rest == a + (b + (c.payload + rest));
    ReadWhole(c.kind, b + (c.payload + rest));
    ReadWhole(|c.payload|, c.payload + rest);
    assert (c.payload + rest)[..|c.payload|] == c.payload && (c.payload + rest)[|c.payload|..] == rest;
  }

  /** The lengths at which a cut frame looks like a clean end of stream: nothing, the first byte
      of either number, the type alone, the header alone. */
  predicate LooksClean(c: Capsule, m: nat) {
    var k, l := Size(c.kind), Size(|c.payload|);
    m == 0 || m == 1 || m == k || m == k + 1 || m == k + l
  }

  /** A frame cut short is never read as a capsule; the error is EOF exactly at those lengths. */
  lemma {:induction false} ReadsCutFrame(c: Capsule, m: nat, room: nat)
    requires c.Valid() && m < |Frame(c)|
    ensures ReadFrame(Frame(c)[..m], room) ==
      if |c.payload| > room && m >= |Header(c)| then Panicked(c.payload[..m - |Header(c)|])
      else Failed(if LooksClean(c, m) then EOF else UnexpectedEOF)
  {
    var a, b := EncodeVarint(c.kind), EncodeVarint(|c.payload|);
    var s := Frame(c)[..m];
    if m < |a| {
      assert s == a[..m];
      ReadCut(c.kind, m);
    } else if m < |a| + |b| {
      assert s == a + b[..m - |a|];
      ReadWhole(c.kind, b[..m - |a|]);
      ReadCut(|c.payload|, m - |a|);
    } else {
      var p := c.payload[..m - |a| - |b|];
      assert s == a + (b + p);
      ReadWhole(c.kind, b + p);
      ReadWhole(|c.payload|, p);
    }
  }

  // ----- runs -----

  datatype Run = Run(got: seq<Capsule>, error: Error)

  /** Reading until the first error. */
  function ReadAll(s: seq<byte>, done: seq<Capsule>, room: nat): Run
    decreases |s|
  {
    match ReadFrame(s, room)
    case Failed(e) => Run(done, e)
    case Panicked(_) => Run(done, Panic)
    case Got(c, rest) => ReadAll(rest, done + [c], room)
  }

  /** The frames of some capsules. */
  function Frames(cs: seq<Capsule>): (fs: seq<seq<byte>>)
    requires forall i | 0 <= i < |cs| :: cs[i].Valid()
    ensures |fs| == |cs|
  {
    seq(|cs|, i requires 0 <= i < |cs| => Frame(cs[i]))
  }

  function Concat(fs: seq<seq<byte>>, n: nat): seq<byte>
    requires n <= |fs|
  {
    if n == 0 then [] else Concat(fs, n - 1) + fs[n - 1]
  }

  /** f is a frame that reads back as c, whatever follows. */
  ghost predicate Readable(c: Capsule, f: seq<byte>, room: nat) {
    forall rest :: ReadFrame(f + rest, room) == Got(c, rest)
  }

  /** Whatever follows n frames is read after exactly those n capsules. */
  lemma {:induction false} ReadsFrames(cs: seq<Capsule>, fs: seq<seq<byte>>, n: nat, rest: seq<byte>, room: nat)
    requires n <= |cs| == |fs| && forall i | 0 <= i < n :: Readable(cs[i], fs[i], room)
    ensures ReadAll(Concat(fs, n) + rest, [], room) == ReadAll(rest, cs[..n], room)
    decreases n
  {
    if n == 0 {
      assert Concat(fs, 0) + rest == rest;
    } else {
      var c, f := cs[n - 1], fs[n - 1];
      assert cs[..n - 1] + [c] == cs[..n];
      assert Concat(fs, n) + rest == Concat(fs, n - 1) + (f + rest);
      ReadsFrames(cs, fs, n - 1, f + rest, room);
      ReadsOne(c, f, rest, cs[..n - 1], room);
    }
  }

  lemma {:induction false} ReadsOne(c: Capsule, f: seq<byte>, rest: seq<byte>, done: seq<Capsule>, room: nat)
    requires Readable(c, f, room)
    ensures ReadAll(f + rest, done, room) == ReadAll(rest, done + [c], room)
  {
    assert ReadFrame(f + rest, room) == Got(c, rest);
  }

  lemma {:induction false} FrameReadable(c: Capsule, room: nat)
    requires c.Valid() && |c.payload| <= room
    ensures Readable(c, Frame(c), room)
  {
    forall rest ensures ReadFrame(Frame(c) + rest, room) == Got(c, rest) { ReadsFrame(c, rest, room); }
  }

  /** The first capsule without room for its payload, or the end. */
  function FirstHuge(cs: seq<Capsule>, room: nat): (h: nat)
    ensures h <= |cs| && (forall i | 0 <= i < h :: |cs[i].payload| <= room) && (h < |cs| ==> |cs[h].payload| > room)
  {
    if cs == [] || |cs[0].payload| > room then 0 else 1 + FirstHuge(cs[1..], room)
  }

  /** After n whole frames and perhaps m bytes of the next one: those n capsules, then an error;
      unless one before them panics. */
  lemma {:induction false} ReadsWritten(cs: seq<Capsule>, fs: seq<seq<byte>>, n: nat, m: nat, room: nat, h: nat)
    requires n <= |cs| && (forall i | 0 <= i < |cs| :: cs[i].Valid()) && fs == Frames(cs) && h == FirstHuge(cs, room)
    requires n < |cs| ==> m < |fs[n]|
    ensures ReadAll(Concat(fs, n) + (if n == |cs| then [] else fs[n][..m]), [], room) ==
      if h < n then Run(cs[..h], Panic)
      else Run(cs[..n], if n < |cs| && h == n && m >= |Header(cs[n])| then Panic
                        else if n == |cs| || LooksClean(cs[n], m) then EOF else UnexpectedEOF)
  {
    var tail := if n == |cs| then [] else fs[n][..m];
    if h < n {
      StopsAtHuge(cs, fs, n, tail, room, h);
    } else {
      forall i | 0 <= i < n ensures Readable(cs[i], fs[i], room) { FrameReadable(cs[i], room); }
      ReadsFrames(cs, fs, n, tail, room);
      if n < |cs| { ReadsCutFrame(cs[n], m, room); }
    }
  }

  lemma {:induction false} StopsAtHuge(cs: seq<Capsule>, fs: seq<seq<byte>>, n: nat, tail: seq<byte>, room: nat, h: nat)
    requires h < n <= |cs| && (forall i | 0 <= i < |cs| :: cs[i].Valid()) && fs == Frames(cs) && h == FirstHuge(cs, room)
    ensures ReadAll(Concat(fs, n) + tail, [], room) == Run(cs[..h], Panic)
  {
    forall i | 0 <= i < h ensures Readable(cs[i], fs[i], room) { FrameReadable(cs[i], room); }
    var more := ConcatSplit(fs, h + 1, n);
    Associate(Concat(fs, h), fs[h], more, tail);
    ReadsFrames(cs, fs, h, fs[h] + (more + tail), room);
    ReadsFrame(cs[h], more + tail, room);
  }

  lemma {:induction false} Associate(a: seq<byte>, b: seq<byte>, c: seq<byte>, d: seq<byte>)
    ensures (a + b + c) + d == a + (b + (c + d))
  {
  }

  lemma {:induction false} ConcatSplit(fs: seq<seq<byte>>, k: nat, n: nat) returns (more: seq<byte>)
    requires k <= n <= |fs|
    ensures Concat(fs, n) == Concat(fs, k) + more
    decreases n
  {
    if k == n {
      more := [];
    } else {
      more := ConcatSplit(fs, k, n - 1);
      assert Concat(fs, k) + (more + fs[n - 1]) == (Concat(fs, k) + more) + fs[n - 1];
      more := more + fs[n - 1];
    }
  }

  // ----- the session -----

  /** A pipe that accepts `quota` more bytes. */
  class Stream {
    var pipe: seq<byte>
    var quota: nat

    constructor (q: nat)
      ensures pipe == [] && quota == q
    {
      pipe, quota := [], q;
    }

    method Write(p: seq<byte>) returns (ok: bool)
      modifies this
      ensures ok == (|p| <= old(quota))
      ensures var n := if ok then |p| else old(quota); pipe == old(pipe) + p[..n] && quota == old(quota) - n
    {
      ok := |p| <= quota;
      var n := if ok then |p| else quota;
      pipe, quota := pipe + p[..n], quota - n;
    }

    /** io.ReadFull of n bytes. */
    method ReadFull(n: nat) returns (r: Option<seq<byte>>, e: Error)
      modifies this`pipe
      ensures if |old(pipe)| >= n then r == Some(old(pipe)[..n]) && pipe == old(pipe)[n..]
        else r == None && e == Short(|old(pipe)|) && pipe == []
    {
      e := Short(|pipe|);
      if |pipe| < n {
        pipe := [];
        return None, e;
      }
      r := Some(pipe[..n]);
      pipe := pipe[n..];
    }
  }

  class Session {
    var closed: bool
    const stream: Stream
    /** The longest slice that can be made. */
    const room: nat

    constructor (s: Stream, longest: nat)
      ensures !closed && stream == s && room == longest
    {
      closed, stream, room := false, s, longest;
    }

    method Close()
      modifies this
      ensures closed
    {
      closed := true;
    }

    /** Success puts the whole frame on the stream; failure puts on it as much as it accepted. */
    method WriteCapsule(c: Capsule) returns (r: Option<Error>)
      requires c.Valid()
      modifies stream
      ensures closed ==> r == Some(Closed) && unchanged(stream)
      ensures !closed ==>
        var n := if |Frame(c)| <= old(stream.quota) then |Frame(c)| else old(stream.quota);
        && r == (if n == |Frame(c)| then None else Some(WriteFailed))
        && stream.pipe == old(stream.pipe) + Frame(c)[..n] && stream.quota == old(stream.quota) - n
    {
      if closed { return Some(Closed); }
      var hdr := Header(c);
      if |c.payload| <= 512 {
        var ok := stream.Write(hdr + c.payload);
        return if ok then None else Some(WriteFailed);
      }
      var ok := stream.Write(hdr);
      if !ok {
        assert Frame(c)[..old(stream.quota)] == hdr[..old(stream.quota)];
        return Some(WriteFailed);
      }
      ghost var q := stream.quota;
      ok := stream.Write(c.payload);
      ghost var n := if ok then |c.payload| else q;
      assert Frame(c)[..|hdr| + n] == hdr[..|hdr|] + c.payload[..n];
      r := if ok then None else Some(WriteFailed);
    }

    method ReadVarint() returns (r: Option<nat>, e: Error)
      modifies stream`pipe
      ensures match ReadNumber(old(stream.pipe))
        case NoNumber(err) => r == None && e == err && stream.pipe == []
        case Number(v, rest) => r == Some(v) && stream.pipe == rest
    {
      ghost var s := stream.pipe;
      var first, more;
      first, e := stream.ReadFull(1);
      if first.None? { return None, e; }
      var buf := first.value;
      var varintLen := Announced(buf[0]);
      if varintLen > 1 {
        more, e := stream.ReadFull(varintLen - 1);
        if more.None? { return None, e; }
        buf := buf + more.value;
      }
      assert buf == s[..varintLen];
      DecodeExtent(buf);
      assert stream.pipe == s[varintLen..];
      r := Some(DecodeVarint(buf).value.val);
    }

    method ReadCapsule() returns (r: Option<Capsule>, e: Error)
      modifies stream`pipe
      ensures closed ==> r == None && e == Closed && unchanged(stream)
      ensures !closed ==>
        match ReadFrame(old(stream.pipe), room)
        case Failed(err) => r == None && e == err && stream.pipe == []
        case Panicked(rest) => r == None && e == Panic && stream.pipe == rest
        case Got(c, rest) => r == Some(c) && stream.pipe == rest
    {
      if closed { return None, Closed; }
      var kind, len, payload;
      kind, e := ReadVarint();
      if kind.None? { return None, e; }
      len, e := ReadVarint();
      if len.None? { return None, e; }
      if len.value > room { return None, Panic; }
      if len.value == 0 { return Some(Capsule(kind.value, [])), e; }
      payload, e := stream.ReadFull(len.value);
      if payload.None? { return None, e; }
      r := Some(Capsule(kind.value, payload.value));
    }
  }

  /** One write, told of its frame f. */
  method Send(s: Session, c: Capsule, ghost f: seq<byte>) returns (ok: bool)
    requires !s.closed && c.Valid() && f == Frame(c)
    modifies s.stream
    ensures ok == (|f| <= old(s.stream.quota))
    ensures ok ==> s.stream.pipe == old(s.stream.pipe) + f && s.stream.quota == old(s.stream.quota) - |f|
    ensures !ok ==> s.stream.pipe == old(s.stream.pipe) + f[..old(s.stream.quota)]
  {
    assert f[..|f|] == f;
    var e := s.WriteCapsule(c);
    ok := e.None?;
  }

  /** Writes until the first failure; m bytes of the frame that failed got through. */
  method WriteAll(s: Session, cs: seq<Capsule>, ghost fs: seq<seq<byte>>) returns (n: nat, ghost m: nat)
    requires !s.closed && (forall i | 0 <= i < |cs| :: cs[i].Valid()) && fs == Frames(cs)
    modifies s.stream
    ensures n <= |fs|
    ensures n == |fs| ==> s.stream.pipe == old(s.stream.pipe) + Concat(fs, n)
    ensures n < |fs| ==> m < |fs[n]| && m == old(s.stream.quota) - |Concat(fs, n)| && s.stream.pipe == old(s.stream.pipe) + Concat(fs, n) + fs[n][..m]
    ensures |Concat(fs, |fs|)| <= old(s.stream.quota) ==> n == |fs|
  {
    n, m := 0, 0;
    ghost var q := s.stream.quota;
    while n < |cs|
      invariant n <= |cs| && s.stream.pipe == old(s.stream.pipe) + Concat(fs, n)
      invariant s.stream.quota == q - |Concat(fs, n)|
    {
      m := s.stream.quota;
      OneMore(old(s.stream.pipe), fs, n);
      var ok := Send(s, cs[n], fs[n]);
      if !ok {
        ConcatGrows(fs, n + 1, |fs|);
        return;
      }
      n := n + 1;
    }
  }

  lemma {:induction false} OneMore(before: seq<byte>, fs: seq<seq<byte>>, n: nat)
    requires n < |fs|
    ensures before + Concat(fs, n + 1) == before + Concat(fs, n) + fs[n]
    ensures |Concat(fs, n + 1)| == |Concat(fs, n)| + |fs[n]|
  {
  }

  lemma {:induction false} ConcatGrows(fs: seq<seq<byte>>, n: nat, m: nat)
    requires n <= m <= |fs|
    ensures |Concat(fs, n)| <= |Concat(fs, m)|
    decreases m
  {
    if n < m { ConcatGrows(fs, n, m - 1); }
  }

  lemma {:induction false} NothingBefore(s: seq<byte>)
    ensures [] + s == s && s + [] == s
  {
  }

  method ReadUntilError(s: Session) returns (got: seq<Capsule>, e: Error)
    requires !s.closed
    modifies s.stream`pipe
    ensures Run(got, e) == ReadAll(old(s.stream.pipe), [], s.room)
  {
    got := [];
    while true
      invariant ReadAll(s.stream.pipe, got, s.room) == ReadAll(old(s.stream.pipe), [], s.room)
      decreases |s.stream.pipe|
    {
      var c;
      c, e := s.ReadCapsule();
      if c.None? { return; }
      got := got + [c.value];
    }
  }

  /** Any capsules, on a stream that may fail anywhere: the peer reads exactly those whose
      WriteCapsule succeeded, then an error, and never a capsule that was not written. It stops with
      a panic instead exactly at a capsule that it has no room for and whose header arrived. */
  method Exchange(cs: seq<Capsule>, quota: nat, room: nat) returns (sent: nat, got: seq<Capsule>, e: Error)
    requires forall i | 0 <= i < |cs| :: cs[i].Valid()
    ensures sent <= |cs| && got == cs[..if FirstHuge(cs, room) < sent then FirstHuge(cs, room) else sent]
    ensures e == Panic || e == EOF || e == UnexpectedEOF
    ensures e == Panic <==> var h := FirstHuge(cs, room);
      h < sent || (h == sent < |cs| && |Concat(Frames(cs), h)| + |Header(cs[h])| <= quota)
    ensures |Concat(Frames(cs), |cs|)| <= quota ==> sent == |cs| && (e == EOF || e == Panic)
  {
    var stream := new Stream(quota);
    var s := new Session(stream, room);
    ghost var fs := Frames(cs);
    ghost var m;
    sent, m := WriteAll(s, cs, fs);
    NothingBefore(Concat(fs, sent));
    ReadsWritten(cs, fs, sent, m, room, FirstHuge(cs, room));
    got, e := ReadUntilError(s);
  }

  // ----- IP packets over datagrams -----

  /** The packet a datagram carries for this context: none if it is empty, malformed or for another. */
  function Carried(ctx: nat, d: seq<byte>): Option<seq<byte>> {
    match DecodeVarint(d)
    case None => None
    case Some(v) => if v.val != ctx || v.readLen > |d| then None else Some(d[v.readLen..])
  }

  /** The packets in a queue of datagrams, in order. */
  function Packets(ctx: nat, queue: seq<seq<byte>>): seq<seq<byte>> {
    if queue == [] then [] else
      var rest := Packets(ctx, queue[1..]);
      match Carried(ctx, queue[0])
      case None => rest
      case Some(p) => [p] + rest
  }

  lemma {:induction false} CarriesPacket(ctx: nat, packet: seq<byte>)
    requires ctx < VarintLimit
    ensures Carried(ctx, EncodeVarint(ctx) + packet) == Some(packet)
  {
    TagValues(8);
    DecodeEncode(ctx, packet);
    assert (EncodeVarint(ctx) + packet)[Size(ctx)..] == packet;
  }

  class Tunnel {
    var queue: seq<seq<byte>>
    var closed: bool
    const contextID: nat

    constructor (ctx: nat)
      ensures queue == [] && !closed && contextID == ctx
    {
      queue, closed, contextID := [], false, ctx;
    }

    /** Small packets go through a stack buffer, large ones through the heap. */
    method SendIPPacket(packet: seq<byte>) returns (r: Option<Error>)
      requires contextID < VarintLimit
      modifies this`queue
      ensures closed ==> r == Some(Closed) && queue == old(queue)
      ensures !closed ==> r == None && queue == old(queue) + [EncodeVarint(contextID) + packet]
    {
      if closed { return Some(Closed); }
      var stackBuf := new byte[2048];
      var n := EncodeVarintSlice(contextID, stackBuf, 0);
      var totalLen := n + |packet|;
      var buf := stackBuf;
      if totalLen > stackBuf.Length {
        buf := new byte[totalLen];
        n := EncodeVarintSlice(contextID, buf, 0);
      }
      assert buf[..n] == EncodeVarint(contextID);
      totalLen := CapsuleBuffers.Append(buf, n, packet);
      queue := queue + [buf[..totalLen]];
      r := None;
    }

    /** Takes the next packet of this context, dropping every other datagram before it. */
    method ReceiveIPPacket() returns (r: Option<seq<byte>>)
      modifies this`queue
      ensures closed ==> r == None && queue == old(queue)
      ensures !closed ==>
        var ps := Packets(contextID, old(queue));
        if ps == [] then r == None && queue == [] else r == Some(ps[0]) && Packets(contextID, queue) == ps[1..]
    {
      if closed { return None; }
      while queue != []
        invariant Packets(contextID, queue) == Packets(contextID, old(queue))
        decreases |queue|
      {
        var raw := queue[0];
        queue := queue[1..];
        if |raw| == 0 { continue; }
        var d := DecodeVarint(raw);
        if d.None? { continue; }
        if d.value.val != contextID { continue; }
        DecodeExtent(raw);
        return Some(raw[d.value.readLen..]);
      }
      r := None;
    }
  }

  /** What reaches the queue: our packets, and datagrams that carry nothing for this context. */
  datatype Arrival = Ours(packet: seq<byte>) | Foreign(datagram: seq<byte>)

  function OnWire(ctx: nat, a: Arrival): seq<byte>
    requires ctx < VarintLimit
  {
    match a
    case Ours(p) => EncodeVarint(ctx) + p
    case Foreign(d) => d
  }

  function Sent(arrivals: seq<Arrival>): seq<seq<byte>> {
    if arrivals == [] then [] else (if arrivals[0].Ours? then [arrivals[0].packet] else []) + Sent(arrivals[1..])
  }

  /** Whatever else arrives between them, the packets come out as sent and in order. */
  lemma {:induction false} PacketsInOrder(ctx: nat, arrivals: seq<Arrival>, queue: seq<seq<byte>>)
    requires ctx < VarintLimit && |queue| == |arrivals|
    requires forall i | 0 <= i < |queue| :: queue[i] == OnWire(ctx, arrivals[i])
    requires forall i | 0 <= i < |queue| && arrivals[i].Foreign? :: Carried(ctx, queue[i]) == None
    ensures Packets(ctx, queue) == Sent(arrivals)
    decreases |queue|
  {
    if queue != [] {
      assert queue[0] == OnWire(ctx, arrivals[0]);
      PacketsInOrder(ctx, arrivals[1..], queue[1..]);
      if arrivals[0].Ours? { CarriesPacket(ctx, arrivals[0].packet); }
    }
  }
}
