/**
  WebSocket messages (ws/conn.go): ReadMessage reassembles fragments, answers pings and
  closes on violations. UTF-8 validity is a parameter.
*/
module WsMessages {
  import opened Optional
  import opened Words
  import opened WsFrames

  const OpContinuation := 0
  const OpText := 1
  const OpBinary := 2
  const OpClose := 8
  const OpPing := 9
  const OpPong := 10

  type Utf8 = seq<byte> -> bool

  /** What the server writes while reading: pongs, its own close frame, or the echo of the peer's. */
  datatype Sent = Pong(payload: seq<byte>) | CloseOwn(status: nat) | CloseEcho(status: nat, reason: seq<byte>)

  /** The message under construction; kind 0 means none. */
  datatype Assembly = Assembly(kind: nat, buf: seq<byte>)

  datatype Action = More(a: Assembly, sent: seq<Sent>) | Deliver(kind: nat, payload: seq<byte>)
    | Stop(error: Error, sent: seq<Sent>, closed: bool)

  /** Codes that must not appear on the wire are replaced. */
  function WireStatus(code: nat): nat {
    if code == 1005 || code == 1006 || code == 1015 || code < 1000 || code > 4999 then 1000 else code
  }

  function Echo(payload: seq<byte>): Sent {
    if |payload| < 2 then CloseEcho(1000, []) else CloseEcho(WireStatus(BigEndian(payload[..2])), payload[2..])
  }

  /** What ReadMessage does with one frame. */
  function Handle(f: Frame, a: Assembly, utf8: Utf8): Action {
    if f.opcode == OpPing then More(a, [Pong(f.payload)])
    else if f.opcode == OpPong then More(a, [])
    else if f.opcode == OpClose then Stop(EOF, [Echo(f.payload)], true)
    else if f.opcode == OpContinuation then
      if a.kind == 0 then Stop(NotWebSocket, [], false)
      else if !f.fin then More(Assembly(a.kind, a.buf + f.payload), [])
      else if a.kind == OpText && !utf8(a.buf + f.payload) then Stop(InvalidUTF8, [CloseOwn(1007)], true)
      else Deliver(a.kind, a.buf + f.payload)
    else if f.opcode == OpText || f.opcode == OpBinary then
      if !f.fin then More(Assembly(if a.kind == 0 then f.opcode else a.kind, a.buf + f.payload), [])
      else if f.opcode == OpText && !utf8(f.payload) then Stop(InvalidUTF8, [CloseOwn(1007)], true)
      else Deliver(f.opcode, f.payload)
    else Stop(NotWebSocket, [CloseOwn(1002)], true)
  }

  datatype Result = Message(kind: nat, payload: seq<byte>) | Failure(error: Error)

  /** How a call of ReadMessage ends: its result, the unread input, all that was sent, and whether
      the connection was closed (the input is then of no interest). */
  datatype Outcome = Outcome(result: Result, rest: seq<byte>, sent: seq<Sent>, closed: bool)

  function Read(s: seq<byte>, max: int, utf8: Utf8, a: Assembly, sent: seq<Sent>): Outcome
    decreases |s|
  {
    match ReadFrame(s, max)
    case Stopped(e) => Outcome(Failure(e), [], sent, false)
    case Refused(e, status) => Outcome(Failure(e), [], sent + [CloseOwn(status)], true)
    case Got(f, rest) =>
      match Handle(f, a, utf8)
      case More(a', more) => Read(rest, max, utf8, a', sent + more)
      case Deliver(kind, payload) => Outcome(Message(kind, payload), rest, sent, false)
      case Stop(e, more, closed) => Outcome(Failure(e), if closed then [] else rest, sent + more, closed)
  }

  const Fresh := Assembly(0, [])
  const NoMask: Mask := [0, 0, 0, 0]

  class Conn {
    var input: seq<byte>
    var sent: seq<Sent>
    var closed: bool
    const maxMsgLen: int
    const utf8: Utf8

    constructor (source: seq<byte>, max: int, valid: Utf8)
      ensures input == source && sent == [] && !closed && maxMsgLen == max && utf8 == valid
    {
      input, sent, closed, maxMsgLen, utf8 := source, [], false, max, valid;
    }

    method ReadMessage() returns (r: Result)
      modifies this
      ensures old(closed) ==> r == Failure(Closed) && unchanged(this)
      ensures !old(closed) ==>
        var o := Read(old(input), maxMsgLen, utf8, Fresh, old(sent));
        r == o.result && sent == o.sent && closed == o.closed && (!closed ==> input == o.rest)
    {
      if closed { return Failure(Closed); }
      var messageType: nat, messageBuf := 0, [];
      while true
        invariant !closed
        invariant Read(input, maxMsgLen, utf8, Assembly(messageType, messageBuf), sent)
               == Read(old(input), maxMsgLen, utf8, Fresh, old(sent))
        decreases |input|
      {
        var got := ReadFrame(input, maxMsgLen);
        match got {
          case Stopped(e) =>
            input := [];
            return Failure(e);
          case Refused(e, status) =>
            sent, closed := sent + [CloseOwn(status)], true;
            return Failure(e);
          case Got(f, rest) =>
            input := rest;
            if f.opcode == OpPing {
              sent := sent + [Pong(f.payload)];
            } else if f.opcode == OpPong {
              assert sent + [] == sent;
            } else if f.opcode == OpClose {
              sent, closed := sent + [Echo(f.payload)], true;
              return Failure(EOF);
            } else if f.opcode == OpContinuation {
              assert sent + [] == sent;
              if messageType == 0 { return Failure(NotWebSocket); }
              messageBuf := messageBuf + f.payload;
              if f.fin {
                if messageType == OpText && !utf8(messageBuf) {
                  sent, closed := sent + [CloseOwn(1007)], true;
                  return Failure(InvalidUTF8);
                }
                return Message(messageType, messageBuf);
              }
            } else if f.opcode == OpText || f.opcode == OpBinary {
              assert sent + [] == sent;
              if messageType == 0 { messageType := f.opcode; }
              if f.fin {
                if f.opcode == OpText && !utf8(f.payload) {
                  sent, closed := sent + [CloseOwn(1007)], true;
                  return Failure(InvalidUTF8);
                }
                return Message(f.opcode, f.payload);
              }
              messageBuf := messageBuf + f.payload;
            } else {
              sent, closed := sent + [CloseOwn(1002)], true;
              return Failure(NotWebSocket);
            }
        }
      }
    }
  }

  // ----- feeding frames -----

  datatype Progress = Progress(a: Assembly, sent: seq<Sent>)
  datatype Fed = Going(p: Progress) | Halted

  /** The state after frames that all ask for more. */
  function Feed(fs: seq<Frame>, p: Progress, utf8: Utf8): Fed {
    if fs == [] then Going(p) else
      match Handle(fs[0], p.a, utf8)
      case More(a, sent) => Feed(fs[1..], Progress(a, p.sent + sent), utf8)
      case _ => Halted
  }

  lemma {:induction false} FeedAppend(xs: seq<Frame>, ys: seq<Frame>, p: Progress, utf8: Utf8)
    requires Feed(xs, p, utf8).Going?
    ensures Feed(xs + ys, p, utf8) == Feed(ys, Feed(xs, p, utf8).p, utf8)
    decreases |xs|
  {
    if xs == [] {
      assert xs + ys == ys;
    } else {
      assert (xs + ys)[0] == xs[0] && (xs + ys)[1..] == xs[1..] + ys;
      var m := Handle(xs[0], p.a, utf8);
      FeedAppend(xs[1..], ys, Progress(m.a, p.sent + m.sent), utf8);
    }
  }

  /** The frames of a client on the wire, each under its own key. */
  function WireOf(fs: seq<Frame>, masks: seq<Mask>): seq<byte>
    requires |fs| == |masks| && forall i | 0 <= i < |fs| :: fs[i].opcode < 16
  {
    if fs == [] then [] else ClientFrame(fs[0], masks[0]) + WireOf(fs[1..], masks[1..])
  }

  ghost predicate AllLegal(fs: seq<Frame>, max: int) {
    forall i | 0 <= i < |fs| :: LegalFrame(fs[i], max)
  }

  lemma {:induction false} ReadMore(f: Frame, mask: Mask, rest: seq<byte>, max: int, utf8: Utf8, p: Progress)
    requires LegalFrame(f, max) && Handle(f, p.a, utf8).More?
    ensures var m := Handle(f, p.a, utf8);
      Read(ClientFrame(f, mask) + rest, max, utf8, p.a, p.sent) == Read(rest, max, utf8, m.a, p.sent + m.sent)
  {
    ReadsClientFrame(f, mask, max, rest);
  }

  /** How the call ends when a frame does not ask for more. */
  function Ending(m: Action, rest: seq<byte>, sent: seq<Sent>): Outcome
    requires !m.More?
  {
    match m
    case Deliver(kind, payload) => Outcome(Message(kind, payload), rest, sent, false)
    case Stop(e, more, closed) => Outcome(Failure(e), if closed then [] else rest, sent + more, closed)
  }

  lemma {:induction false} ReadLast(f: Frame, mask: Mask, rest: seq<byte>, max: int, utf8: Utf8, p: Progress)
    requires LegalFrame(f, max) && !Handle(f, p.a, utf8).More?
    ensures Read(ClientFrame(f, mask) + rest, max, utf8, p.a, p.sent) == Ending(Handle(f, p.a, utf8), rest, p.sent)
  {
    ReadsClientFrame(f, mask, max, rest);
  }

  /** Reading the frames from the wire is feeding them. */
  lemma {:induction false} ReadFeeds(fs: seq<Frame>, masks: seq<Mask>, rest: seq<byte>, max: int, utf8: Utf8, p: Progress)
    requires |fs| == |masks| && AllLegal(fs, max) && Feed(fs, p, utf8).Going?
    ensures var q := Feed(fs, p, utf8).p; Read(WireOf(fs, masks) + rest, max, utf8, p.a, p.sent) == Read(rest, max, utf8, q.a, q.sent)
    decreases |fs|
  {
    if fs == [] {
      assert WireOf(fs, masks) + rest == rest;
    } else {
      var w, tail := ClientFrame(fs[0], masks[0]), WireOf(fs[1..], masks[1..]);
      assert WireOf(fs, masks) + rest == w + (tail + rest);
      var m := Handle(fs[0], p.a, utf8);
      ReadMore(fs[0], masks[0], tail + rest, max, utf8, p);
      ReadFeeds(fs[1..], masks[1..], rest, max, utf8, Progress(m.a, p.sent + m.sent));
    }
  }

  // ----- messages in pieces -----

  datatype Control = PingFrom(payload: seq<byte>) | PongFrom(payload: seq<byte>)

  /** A fragment, and the control frames that arrive before it. */
  datatype Piece = Piece(controls: seq<Control>, data: seq<byte>)

  function ControlFrame(c: Control): Frame {
    Frame(true, if c.PingFrom? then OpPing else OpPong, c.payload)
  }

  function ControlFrames(cs: seq<Control>): seq<Frame> {
    if cs == [] then [] else [ControlFrame(cs[0])] + ControlFrames(cs[1..])
  }

  /** One pong per ping, same payload, in order. */
  function PongsFor(cs: seq<Control>): seq<Sent> {
    if cs == [] then [] else (if cs[0].PingFrom? then [Pong(cs[0].payload)] else []) + PongsFor(cs[1..])
  }

  /** The first fragment names the kind, the others continue it, the last one is final. */
  function Fragment(kind: nat, ps: seq<Piece>, i: nat): Frame
    requires i < |ps|
  {
    Frame(i + 1 == |ps|, if i == 0 then kind else OpContinuation, ps[i].data)
  }

  /** The frames of the first n pieces. */
  function Frames(kind: nat, ps: seq<Piece>, n: nat): seq<Frame>
    requires n <= |ps|
  {
    if n == 0 then [] else Frames(kind, ps, n - 1) + ControlFrames(ps[n - 1].controls) + [Fragment(kind, ps, n - 1)]
  }

  function Data(ps: seq<Piece>, n: nat): seq<byte>
    requires n <= |ps|
  {
    if n == 0 then [] else Data(ps, n - 1) + ps[n - 1].data
  }

  function Pongs(ps: seq<Piece>, n: nat): seq<Sent>
    requires n <= |ps|
  {
    if n == 0 then [] else Pongs(ps, n - 1) + PongsFor(ps[n - 1].controls)
  }

  lemma {:induction false} FeedControls(cs: seq<Control>, p: Progress, utf8: Utf8)
    ensures Feed(ControlFrames(cs), p, utf8) == Going(Progress(p.a, p.sent + PongsFor(cs)))
    decreases |cs|
  {
    if cs == [] {
      assert p.sent + [] == p.sent;
    } else {
      var one := if cs[0].PingFrom? then [Pong(cs[0].payload)] else [];
      assert (p.sent + one) + PongsFor(cs[1..]) == p.sent + PongsFor(cs);
      assert ControlFrames(cs)[1..] == ControlFrames(cs[1..]);
      FeedControls(cs[1..], Progress(p.a, p.sent + one), utf8);
    }
  }

  /** After n fragments that are not the last: the kind, their data, and the pongs so far. */
  lemma {:induction false} FeedPieces(kind: nat, ps: seq<Piece>, n: nat, sent0: seq<Sent>, utf8: Utf8)
    requires (kind == OpText || kind == OpBinary) && n < |ps|
    ensures Feed(Frames(kind, ps, n), Progress(Fresh, sent0), utf8)
         == Going(Progress(Assembly(if n == 0 then 0 else kind, Data(ps, n)), sent0 + Pongs(ps, n)))
    decreases n
  {
    if n == 0 {
      assert sent0 + [] == sent0;
    } else {
      FeedPieces(kind, ps, n - 1, sent0, utf8);
      FeedPiece(kind, ps, n, Progress(Fresh, sent0), sent0, utf8);
    }
  }

  lemma {:induction false} FeedPiece(kind: nat, ps: seq<Piece>, n: nat, start: Progress, sent0: seq<Sent>, utf8: Utf8)
    requires (kind == OpText || kind == OpBinary) && 0 < n < |ps|
    requires Feed(Frames(kind, ps, n - 1), start, utf8)
          == Going(Progress(Assembly(if n == 1 then 0 else kind, Data(ps, n - 1)), sent0 + Pongs(ps, n - 1)))
    ensures Feed(Frames(kind, ps, n), start, utf8) == Going(Progress(Assembly(kind, Data(ps, n)), sent0 + Pongs(ps, n)))
  {
    var cs, f := ControlFrames(ps[n - 1].controls), Fragment(kind, ps, n - 1);
    var q := FeedThrough(kind, ps, n, start, sent0, utf8);
    FeedAppend(Frames(kind, ps, n - 1) + cs, [f], start, utf8);
    assert q.sent + [] == q.sent && [f][1..] == [];
    assert Feed([f], q, utf8) == Feed([], Progress(Assembly(kind, q.a.buf + f.payload), q.sent + []), utf8);
  }

  /** Up to just before the n-th fragment. */
  lemma {:induction false} FeedThrough(kind: nat, ps: seq<Piece>, n: nat, start: Progress, sent0: seq<Sent>, utf8: Utf8)
    returns (q: Progress)
    requires 0 < n <= |ps|
    requires Feed(Frames(kind, ps, n - 1), start, utf8)
          == Going(Progress(Assembly(if n == 1 then 0 else kind, Data(ps, n - 1)), sent0 + Pongs(ps, n - 1)))
    ensures q == Progress(Assembly(if n == 1 then 0 else kind, Data(ps, n - 1)), sent0 + Pongs(ps, n))
    ensures Feed(Frames(kind, ps, n - 1) + ControlFrames(ps[n - 1].controls), start, utf8) == Going(q)
  {
    var cs := ps[n - 1].controls;
    var p := Feed(Frames(kind, ps, n - 1), start, utf8).p;
    q := Progress(p.a, p.sent + PongsFor(cs));
    assert p.sent + PongsFor(cs) == sent0 + Pongs(ps, n);
    FeedAppend(Frames(kind, ps, n - 1), ControlFrames(cs), start, utf8);
    FeedControls(cs, p, utf8);
  }

  lemma {:induction false} WireSplit(xs: seq<Frame>, f: Frame, masks: seq<Mask>)
    requires |masks| == |xs| + 1 && f.opcode < 16 && forall i | 0 <= i < |xs| :: xs[i].opcode < 16
    ensures WireOf(xs + [f], masks) == WireOf(xs, masks[..|xs|]) + ClientFrame(f, masks[|xs|])
    decreases |xs|
  {
    var all := xs + [f];
    if xs == [] {
      assert all[1..] == [] && masks[1..] == [];
    } else {
      assert all[1..] == xs[1..] + [f] && masks[..|xs|][1..] == masks[1..][..|xs| - 1];
      WireSplit(xs[1..], f, masks[1..]);
    }
  }

  /** Frames that all ask for more, then one that does not. */
  lemma {:induction false} ReadThrough(xs: seq<Frame>, f: Frame, masks: seq<Mask>, rest: seq<byte>, max: int, utf8: Utf8,
                                       p: Progress, q: Progress)
    requires AllLegal(xs + [f], max) && |masks| == |xs| + 1
    requires Feed(xs, p, utf8) == Going(q) && !Handle(f, q.a, utf8).More?
    ensures Read(WireOf(xs + [f], masks) + rest, max, utf8, p.a, p.sent) == Ending(Handle(f, q.a, utf8), rest, q.sent)
  {
    var fs, n := xs + [f], |xs|;
    assert fs[n] == f;
    forall i | 0 <= i < n ensures LegalFrame(xs[i], max) { assert xs[i] == fs[i]; }
    var last := ClientFrame(f, masks[n]);
    WireSplit(xs, f, masks);
    assert WireOf(fs, masks) + rest == WireOf(xs, masks[..n]) + (last + rest);
    ReadFeeds(xs, masks[..n], last + rest, max, utf8, p);
    ReadLast(f, masks[n], rest, max, utf8, q);
  }

  /** Any message, in any fragments, under any keys, with any control frames in between: it is
      returned whole with its kind, one pong per ping has been sent in order, and exactly its bytes
      were consumed. A text message that is not UTF-8 as a whole closes the connection instead. */
  lemma {:induction false} Reassembles(kind: nat, ps: seq<Piece>, masks: seq<Mask>, rest: seq<byte>, max: int, utf8: Utf8,
                                       sent0: seq<Sent>)
    requires (kind == OpText || kind == OpBinary) && ps != []
    requires var fs := Frames(kind, ps, |ps|); AllLegal(fs, max) && |masks| == |fs|
    ensures var data, pongs := Data(ps, |ps|), sent0 + Pongs(ps, |ps|);
      Read(WireOf(Frames(kind, ps, |ps|), masks) + rest, max, utf8, Fresh, sent0) ==
        if kind == OpText && !utf8(data) then Outcome(Failure(InvalidUTF8), [], pongs + [CloseOwn(1007)], true)
        else Outcome(Message(kind, data), rest, pongs, false)
  {
    var n := |ps|;
    var xs, f := Frames(kind, ps, n - 1) + ControlFrames(ps[n - 1].controls), Fragment(kind, ps, n - 1);
    assert xs + [f] == Frames(kind, ps, n);
    FeedPieces(kind, ps, n - 1, sent0, utf8);
    var q := FeedThrough(kind, ps, n, Progress(Fresh, sent0), sent0, utf8);
    LastFragment(kind, ps, q, rest, utf8);
    ReadThrough(xs, f, masks, rest, max, utf8, Progress(Fresh, sent0), q);
  }

  lemma {:induction false} LastFragment(kind: nat, ps: seq<Piece>, q: Progress, rest: seq<byte>, utf8: Utf8)
    requires (kind == OpText || kind == OpBinary) && ps != []
    requires q.a == Assembly(if |ps| == 1 then 0 else kind, Data(ps, |ps| - 1))
    ensures var data, m := Data(ps, |ps|), Handle(Fragment(kind, ps, |ps| - 1), q.a, utf8);
      && !m.More?
      && Ending(m, rest, q.sent) == (if kind == OpText && !utf8(data) then Outcome(Failure(InvalidUTF8), [], q.sent + [CloseOwn(1007)], true)
                                     else Outcome(Message(kind, data), rest, q.sent, false))
  {
    assert [] + ps[|ps| - 1].data == ps[|ps| - 1].data;
  }

  // ----- every delivered message -----

  /** Continuation, text or binary: the frames whose payload may become part of a message. */
  predicate IsData(f: Frame) { f.opcode == OpContinuation || f.opcode == OpText || f.opcode == OpBinary }

  /** The payloads of the data frames, in order. */
  function DataOf(fs: seq<Frame>): seq<byte> {
    if fs == [] then [] else (if IsData(fs[0]) then fs[0].payload else []) + DataOf(fs[1..])
  }

  function DataCount(fs: seq<Frame>): nat {
    if fs == [] then 0 else (if IsData(fs[0]) then 1 else 0) + DataCount(fs[1..])
  }

  /** The opcode that names the message: that of the first text or binary frame, 0 without one. */
  function KindOf(fs: seq<Frame>): nat {
    if fs == [] then 0 else if fs[0].opcode == OpText || fs[0].opcode == OpBinary then fs[0].opcode else KindOf(fs[1..])
  }

  lemma {:induction false} DataOfLast(fs: seq<Frame>, f: Frame)
    requires IsData(f)
    ensures DataOf(fs + [f]) == DataOf(fs) + f.payload && DataCount(fs + [f]) == DataCount(fs) + 1
    ensures KindOf(fs + [f]) == if KindOf(fs) != 0 then KindOf(fs) else f.opcode
    decreases |fs|
  {
    if fs == [] {
      assert [f][1..] == [] && f.payload + [] == [] + f.payload;
    } else {
      assert (fs + [f])[1..] == fs[1..] + [f];
      DataOfLast(fs[1..], f);
      var mine := if IsData(fs[0]) then fs[0].payload else [];
      assert mine + (DataOf(fs[1..]) + f.payload) == (mine + DataOf(fs[1..])) + f.payload;
    }
  }

  /** Whatever the input: a call that delivers has read legal frames that asked for more, and then
      one that ends the message. */
  lemma {:induction false} Delivered(s: seq<byte>, max: int, utf8: Utf8, p: Progress)
    returns (fs: seq<Frame>, f: Frame, masks: seq<Mask>)
    requires Read(s, max, utf8, p.a, p.sent).result.Message?
    ensures AllLegal(fs + [f], max) && |masks| == |fs| + 1
    ensures s == WireOf(fs + [f], masks) + Read(s, max, utf8, p.a, p.sent).rest
    ensures Feed(fs, p, utf8).Going? && Handle(f, Feed(fs, p, utf8).p.a, utf8).Deliver?
    ensures var q := Feed(fs, p, utf8).p; Read(s, max, utf8, p.a, p.sent) == Ending(Handle(f, q.a, utf8), Read(s, max, utf8, p.a, p.sent).rest, q.sent)
    decreases |s|
  {
    var r := ReadFrame(s, max);
    var mask := AcceptedIsClientFrame(s, max);
    var m := Handle(r.frame, p.a, utf8);
    if m.Deliver? {
      fs, f, masks := [], r.frame, [mask];
      OneFrame(f, mask);
    } else {
      var gs, ms;
      gs, f, ms := Delivered(r.rest, max, utf8, Progress(m.a, p.sent + m.sent));
      fs, masks := [r.frame] + gs, [mask] + ms;
      FirstFrame(r.frame, gs + [f], mask, ms, Read(s, max, utf8, p.a, p.sent).rest, max);
      assert fs + [f] == [r.frame] + (gs + [f]) && fs[1..] == gs;
    }
  }

  lemma {:induction false} OneFrame(f: Frame, mask: Mask)
    requires f.opcode < 16
    ensures [] + [f] == [f] && WireOf([f], [mask]) == ClientFrame(f, mask)
  {
    assert [f][1..] == [] && [mask][1..] == [];
    assert ClientFrame(f, mask) + [] == ClientFrame(f, mask);
  }

  lemma {:induction false} FirstFrame(f: Frame, fs: seq<Frame>, mask: Mask, masks: seq<Mask>, rest: seq<byte>, max: int)
    requires LegalFrame(f, max) && AllLegal(fs, max) && |masks| == |fs|
    ensures AllLegal([f] + fs, max)
    ensures WireOf([f] + fs, [mask] + masks) + rest == ClientFrame(f, mask) + (WireOf(fs, masks) + rest)
  {
    assert ([f] + fs)[1..] == fs && ([mask] + masks)[1..] == masks;
  }

  /** What a call delivers is everything the data frames carried exactly when the last of them is a
      continuation or nothing was collected before it; and it has the kind first named exactly when
      the last one does not name another. */
  lemma {:induction false} DeliveredExactly(s: seq<byte>, max: int, utf8: Utf8, sent: seq<Sent>)
    returns (fs: seq<Frame>, f: Frame, masks: seq<Mask>)
    requires Read(s, max, utf8, Fresh, sent).result.Message?
    ensures AllLegal(fs + [f], max) && |masks| == |fs| + 1
    ensures s == WireOf(fs + [f], masks) + Read(s, max, utf8, Fresh, sent).rest && IsData(f) && f.fin
    ensures var r := Read(s, max, utf8, Fresh, sent).result;
      && (r.payload == DataOf(fs + [f]) <==> f.opcode == OpContinuation || DataOf(fs) == [])
      && (r.kind == KindOf(fs + [f]) <==> f.opcode == OpContinuation || KindOf(fs) == 0 || KindOf(fs) == f.opcode)
  {
    fs, f, masks := Delivered(s, max, utf8, Progress(Fresh, sent));
    FeedExactly(fs, Progress(Fresh, sent), utf8);
    assert [] + DataOf(fs) == DataOf(fs);
    DataOfLast(fs, f);
    LostExactly(DataOf(fs), f.payload);
  }

  lemma {:induction false} LostExactly(before: seq<byte>, last: seq<byte>)
    ensures last == before + last <==> before == []
  {
  }

  // ----- how a call ends -----

  /** Frames after which the reader asks for more: pings, pongs, and data frames that are not final,
      a continuation only after a frame that named the kind. */
  ghost predicate AsksForMore(fs: seq<Frame>, kind: nat) {
    forall i | 0 <= i < |fs| ::
      fs[i].opcode == OpPing || fs[i].opcode == OpPong
      || (!fs[i].fin && (fs[i].opcode == OpText || fs[i].opcode == OpBinary))
      || (!fs[i].fin && fs[i].opcode == OpContinuation && (kind != 0 || KindOf(fs[..i]) != 0))
  }

  /** The answers to the pings among them. */
  function PongsIn(fs: seq<Frame>): seq<Sent> {
    if fs == [] then [] else (if fs[0].opcode == OpPing then [Pong(fs[0].payload)] else []) + PongsIn(fs[1..])
  }

  lemma {:induction false} KindFrom(fs: seq<Frame>, i: nat)
    requires 0 < i <= |fs|
    ensures KindOf(fs[..i]) == if fs[0].opcode == OpText || fs[0].opcode == OpBinary then fs[0].opcode else KindOf(fs[1..][..i - 1])
  {
    assert fs[..i][0] == fs[0] && fs[..i][1..] == fs[1..][..i - 1];
  }

  lemma {:induction false} MoreFrom(fs: seq<Frame>, kind: nat, utf8: Utf8)
    requires fs != []
    ensures var next := if kind == 0 && (fs[0].opcode == OpText || fs[0].opcode == OpBinary) then fs[0].opcode else kind;
      AsksForMore(fs, kind) <==> AsksForMore(fs[..1], kind) && AsksForMore(fs[1..], next)
  {
    var next := if kind == 0 && (fs[0].opcode == OpText || fs[0].opcode == OpBinary) then fs[0].opcode else kind;
    assert fs[..1][..0] == fs[..0];
    forall i | 0 <= i < |fs[1..]|
      ensures fs[1..][i] == fs[i + 1] && (kind != 0 || KindOf(fs[..i + 1]) != 0 <==> next != 0 || KindOf(fs[1..][..i]) != 0)
    {
      KindFrom(fs, i + 1);
    }
    if AsksForMore(fs[..1], kind) && AsksForMore(fs[1..], next) {
      forall i | 0 <= i < |fs|
        ensures fs[i].opcode == OpPing || fs[i].opcode == OpPong
          || (!fs[i].fin && (fs[i].opcode == OpText || fs[i].opcode == OpBinary))
          || (!fs[i].fin && fs[i].opcode == OpContinuation && (kind != 0 || KindOf(fs[..i]) != 0))
      {
        if i == 0 { assert fs[..1][0] == fs[0]; } else { assert fs[1..][i - 1] == fs[i]; }
      }
    }
  }

  lemma {:induction false} FirstAsks(fs: seq<Frame>, a: Assembly, utf8: Utf8)
    requires fs != []
    ensures Handle(fs[0], a, utf8).More? <==> AsksForMore(fs[..1], a.kind)
  {
    assert fs[..1][0] == fs[0] && fs[..1][..0] == [];
  }

  /** What one of them adds. */
  lemma {:induction false} MoreOf(f: Frame, a: Assembly, utf8: Utf8)
    requires Handle(f, a, utf8).More?
    ensures var m := Handle(f, a, utf8);
      && m.a.buf == a.buf + (if IsData(f) then f.payload else [])
      && m.sent == (if f.opcode == OpPing then [Pong(f.payload)] else [])
      && m.a.kind == if a.kind == 0 && (f.opcode == OpText || f.opcode == OpBinary) then f.opcode else a.kind
  {
    assert a.buf + [] == a.buf;
  }

  lemma {:induction false} Grouped<T>(a: seq<T>, b: seq<T>, c: seq<T>)
    ensures (a + b) + c == a + (b + c)
  {
  }

  /** Exactly those frames ask for more, and what they leave is all their data, the first kind named,
      and the pongs. */
  lemma {:induction false} FeedExactly(fs: seq<Frame>, p: Progress, utf8: Utf8)
    ensures Feed(fs, p, utf8).Going? <==> AsksForMore(fs, p.a.kind)
    ensures AsksForMore(fs, p.a.kind) ==>
      Feed(fs, p, utf8) == Going(Progress(Assembly(if p.a.kind != 0 then p.a.kind else KindOf(fs), p.a.buf + DataOf(fs)),
                                          p.sent + PongsIn(fs)))
    decreases |fs|, 1
  {
    if fs == [] {
      assert p.a.buf + [] == p.a.buf && p.sent + [] == p.sent;
    } else {
      FirstAsks(fs, p.a, utf8);
      MoreFrom(fs, p.a.kind, utf8);
      var m := Handle(fs[0], p.a, utf8);
      if m.More? { FeedRest(fs, p, m, utf8); }
    }
  }

  lemma {:induction false} FeedRest(fs: seq<Frame>, p: Progress, m: Action, utf8: Utf8)
    requires fs != [] && m == Handle(fs[0], p.a, utf8) && m.More?
    ensures Feed(fs, p, utf8).Going? <==> AsksForMore(fs[1..], m.a.kind)
    ensures m.a.kind == if p.a.kind == 0 && (fs[0].opcode == OpText || fs[0].opcode == OpBinary) then fs[0].opcode else p.a.kind
    ensures AsksForMore(fs[1..], m.a.kind) ==>
      Feed(fs, p, utf8) == Going(Progress(Assembly(if p.a.kind != 0 then p.a.kind else KindOf(fs), p.a.buf + DataOf(fs)),
                                          p.sent + PongsIn(fs)))
    decreases |fs|, 0
  {
    var f, tail := fs[0], fs[1..];
    MoreOf(f, p.a, utf8);
    FeedExactly(tail, Progress(m.a, p.sent + m.sent), utf8);
    Grouped(p.a.buf, if IsData(f) then f.payload else [], DataOf(tail));
    Grouped(p.sent, m.sent, PongsIn(tail));
  }

  /** Reading on after such frames, whatever comes next. */
  lemma {:induction false} ReadsOn(fs: seq<Frame>, masks: seq<Mask>, t: seq<byte>, max: int, utf8: Utf8, sent: seq<Sent>)
    requires AllLegal(fs, max) && |masks| == |fs| && AsksForMore(fs, 0)
    ensures Read(WireOf(fs, masks) + t, max, utf8, Fresh, sent)
         == Read(t, max, utf8, Assembly(KindOf(fs), DataOf(fs)), sent + PongsIn(fs))
  {
    FeedExactly(fs, Progress(Fresh, sent), utf8);
    assert [] + DataOf(fs) == DataOf(fs);
    ReadFeeds(fs, masks, t, max, utf8, Progress(Fresh, sent));
  }

  /** Every input is such frames and then something that is none of them, where the call ends. */
  lemma {:induction false} Splits(s: seq<byte>, max: int, utf8: Utf8, p: Progress)
    returns (fs: seq<Frame>, masks: seq<Mask>, t: seq<byte>)
    ensures AllLegal(fs, max) && |masks| == |fs| && s == WireOf(fs, masks) + t && AsksForMore(fs, p.a.kind)
    ensures var r := ReadFrame(t, max); r.Got? ==> !AsksForMore([r.frame], if p.a.kind != 0 then p.a.kind else KindOf(fs))
    decreases |s|
  {
    var r := ReadFrame(s, max);
    if r.Got? && Handle(r.frame, p.a, utf8).More? {
      var m := Handle(r.frame, p.a, utf8);
      var mask := AcceptedIsClientFrame(s, max);
      var gs, ms;
      gs, ms, t := Splits(r.rest, max, utf8, Progress(m.a, p.sent + m.sent));
      fs, masks := [r.frame] + gs, [mask] + ms;
      FirstFrame(r.frame, gs, mask, ms, t, max);
      assert fs[0] == r.frame && fs[1..] == gs;
      FeedOne(r.frame, p, utf8);
      assert fs[..1] == [r.frame];
      MoreFrom(fs, p.a.kind, utf8);
    } else {
      fs, masks, t := [], [], s;
      assert WireOf(fs, masks) + t == s;
      if r.Got? { FeedOne(r.frame, p, utf8); }
    }
  }

  lemma {:induction false} FeedOne(f: Frame, p: Progress, utf8: Utf8)
    ensures Handle(f, p.a, utf8).More? <==> AsksForMore([f], p.a.kind)
  {
    FeedExactly([f], p, utf8);
    assert [f][1..] == [];
  }

  /** A close frame: the call ends with EOF and the connection is closed, after one close frame in
      answer. Its code is the peer's, or 1000 without one or for a code that must not be sent; its
      reason is the peer's. */
  lemma {:induction false} CloseEnds(fs: seq<Frame>, masks: seq<Mask>, c: seq<byte>, mask: Mask, rest: seq<byte>, max: int, utf8: Utf8,
                                     sent: seq<Sent>)
    requires AllLegal(fs, max) && |masks| == |fs| && AsksForMore(fs, 0) && LegalFrame(Frame(true, OpClose, c), max)
    ensures var code: nat := if |c| < 2 then 1000 else c[0] as nat * 256 + c[1] as nat;
      var reason := if |c| < 2 then [] else c[2..];
      var answer := if code < 1000 || code > 4999 || code in [1005, 1006, 1015] then 1000 else code;
      Read(WireOf(fs, masks) + (ClientFrame(Frame(true, OpClose, c), mask) + rest), max, utf8, Fresh, sent)
      == Outcome(Failure(EOF), [], sent + PongsIn(fs) + [CloseEcho(answer, reason)], true)
  {
    var f := Frame(true, OpClose, c);
    ReadsOn(fs, masks, ClientFrame(f, mask) + rest, max, utf8, sent);
    ReadLast(f, mask, rest, max, utf8, Progress(Assembly(KindOf(fs), DataOf(fs)), sent + PongsIn(fs)));
    if |c| >= 2 { TwoOctets(c[..2]); }
  }

  lemma {:induction false} TwoOctets(t: seq<byte>)
    requires |t| == 2
    ensures BigEndian(t) == t[0] as nat * 256 + t[1] as nat
  {
    assert t[..1][..0] == [] && t[..1][0] == t[0];
    assert BigEndian(t[..1]) == 256 * BigEndian(t[..1][..0]) + t[..1][0];
  }

  /** An opcode that is not assigned: closed with 1002. */
  lemma {:induction false} UnknownOpcodeEnds(fs: seq<Frame>, masks: seq<Mask>, f: Frame, mask: Mask, rest: seq<byte>, max: int, utf8: Utf8,
                                             sent: seq<Sent>)
    requires AllLegal(fs, max) && |masks| == |fs| && AsksForMore(fs, 0) && LegalFrame(f, max)
    requires 3 <= f.opcode <= 7 || f.opcode >= 11
    ensures Read(WireOf(fs, masks) + (ClientFrame(f, mask) + rest), max, utf8, Fresh, sent)
         == Outcome(Failure(NotWebSocket), [], sent + PongsIn(fs) + [CloseOwn(1002)], true)
  {
    ReadsOn(fs, masks, ClientFrame(f, mask) + rest, max, utf8, sent);
    ReadLast(f, mask, rest, max, utf8, Progress(Assembly(KindOf(fs), DataOf(fs)), sent + PongsIn(fs)));
  }

  /** A continuation of nothing: an error, but the connection stays open and nothing is sent. */
  lemma {:induction false} StrayContinuation(fs: seq<Frame>, masks: seq<Mask>, f: Frame, mask: Mask, rest: seq<byte>, max: int, utf8: Utf8,
                                             sent: seq<Sent>)
    requires AllLegal(fs, max) && |masks| == |fs| && AsksForMore(fs, 0) && LegalFrame(f, max)
    requires f.opcode == OpContinuation && KindOf(fs) == 0
    ensures Read(WireOf(fs, masks) + (ClientFrame(f, mask) + rest), max, utf8, Fresh, sent)
         == Outcome(Failure(NotWebSocket), rest, sent + PongsIn(fs), false)
  {
    ReadsOn(fs, masks, ClientFrame(f, mask) + rest, max, utf8, sent);
    var all := sent + PongsIn(fs);
    assert all + [] == all;
    ReadLast(f, mask, rest, max, utf8, Progress(Assembly(KindOf(fs), DataOf(fs)), all));
  }

  /** A final data frame: a continuation ends the message begun, a text or binary frame is one of its
      own. Text that is not UTF-8 closes the connection with 1007. */
  lemma {:induction false} FinalDataEnds(fs: seq<Frame>, masks: seq<Mask>, f: Frame, mask: Mask, rest: seq<byte>, max: int, utf8: Utf8,
                                         sent: seq<Sent>)
    requires AllLegal(fs, max) && |masks| == |fs| && AsksForMore(fs, 0) && LegalFrame(f, max)
    requires IsData(f) && f.fin && (f.opcode == OpContinuation ==> KindOf(fs) != 0)
    ensures var kind, data := if f.opcode == OpContinuation then KindOf(fs) else f.opcode,
                              if f.opcode == OpContinuation then DataOf(fs) + f.payload else f.payload;
      Read(WireOf(fs, masks) + (ClientFrame(f, mask) + rest), max, utf8, Fresh, sent) ==
        if kind == OpText && !utf8(data) then Outcome(Failure(InvalidUTF8), [], sent + PongsIn(fs) + [CloseOwn(1007)], true)
        else Outcome(Message(kind, data), rest, sent + PongsIn(fs), false)
  {
    ReadsOn(fs, masks, ClientFrame(f, mask) + rest, max, utf8, sent);
    ReadLast(f, mask, rest, max, utf8, Progress(Assembly(KindOf(fs), DataOf(fs)), sent + PongsIn(fs)));
  }

  /** A header that breaks the rules closes the connection with 1002, or 1009 if only the length is
      beyond the limit; `fields` are those written in it. */
  lemma {:induction false} BadHeaderEnds(fs: seq<Frame>, masks: seq<Mask>, h: HeaderFields, rest: seq<byte>, max: int, utf8: Utf8,
                                         sent: seq<Sent>)
    requires AllLegal(fs, max) && |masks| == |fs| && AsksForMore(fs, 0) && h.Valid() && Fault(h, max).Some?
    ensures Read(WireOf(fs, masks) + (HeaderOf(h) + rest), max, utf8, Fresh, sent)
         == Outcome(Failure(Fault(h, max).value), [],
                    sent + PongsIn(fs) + [CloseOwn(if Fault(h, max) == Some(TooLarge) then 1009 else 1002)], true)
  {
    ReadsOn(fs, masks, HeaderOf(h) + rest, max, utf8, sent);
    ReadsAnyHeader(h, rest, max);
  }

  /** Input that ends inside a legal frame: an error, the connection stays open. It looks like a clean
      end exactly where one read of the reader ends and the next begins. */
  lemma {:induction false} CutFrameEnds(fs: seq<Frame>, masks: seq<Mask>, f: Frame, mask: Mask, n: nat, max: int, utf8: Utf8,
                                        sent: seq<Sent>)
    requires AllLegal(fs, max) && |masks| == |fs| && AsksForMore(fs, 0) && LegalFrame(f, max) && n < |ClientFrame(f, mask)|
    ensures var h := |ClientFrame(f, mask)| - |f.payload| - 4;
      Read(WireOf(fs, masks) + ClientFrame(f, mask)[..n], max, utf8, Fresh, sent)
      == Outcome(Failure(if n == 0 || n == 2 || n == h || n == h + 4 then EOF else UnexpectedEOF), [], sent + PongsIn(fs), false)
  {
    ReadsOn(fs, masks, ClientFrame(f, mask)[..n], max, utf8, sent);
    ReadsCutFrame(f, mask, n, max);
  }

  // ----- where the reader is more lenient than section 5.4 of RFC 6455 -----

  /** Inside a fragmented message a data frame that is not final is absorbed like a continuation. */
  lemma {:induction false} InterleavedDataAbsorbed(f: Frame, a: Assembly, utf8: Utf8)
    requires IsData(f) && a.kind != 0
    ensures Handle(f, a, utf8) == Handle(f.(opcode := OpContinuation), a, utf8) <==>
      !f.fin || f.opcode == OpContinuation || (a.buf == [] && f.opcode == a.kind)
      || (f.opcode == OpText && a.kind == OpText && !utf8(f.payload) && !utf8(a.buf + f.payload))
  {
    LostExactly(a.buf, f.payload);
  }

  /** A final one is returned as a message of its own, and what was collected is lost. */
  lemma {:induction false} InterleavedDataLost(first: seq<byte>, second: seq<byte>, masks: seq<Mask>, rest: seq<byte>, max: int, utf8: Utf8)
    requires |masks| == 2 && |first| <= max && |second| <= max && max < TwoTo63
    ensures Read(WireOf([Frame(false, OpText, first)] + [Frame(true, OpBinary, second)], masks) + rest, max, utf8, Fresh, [])
         == Outcome(Message(OpBinary, second), rest, [], false)
  {
    var f, g := Frame(false, OpText, first), Frame(true, OpBinary, second);
    var p, q := Progress(Fresh, []), Progress(Assembly(OpText, first), []);
    assert [] + first == first && [f][1..] == [];
    assert Feed([f], p, utf8) == Feed([], q, utf8);
    ReadThrough([f], g, masks, rest, max, utf8, p, q);
  }

  // ----- the size limit -----

  lemma {:induction false} DataBound(fs: seq<Frame>, max: nat)
    requires AllLegal(fs, max)
    ensures |DataOf(fs)| <= DataCount(fs) * max
    decreases |fs|
  {
    if fs != [] {
      assert LegalFrame(fs[0], max);
      LegalTail(fs, max);
      DataBound(fs[1..], max);
      OneMoreTime(DataCount(fs[1..]), max);
    }
  }

  lemma {:induction false} LegalTail(fs: seq<Frame>, max: int)
    requires AllLegal(fs, max) && fs != []
    ensures AllLegal(fs[1..], max)
  {
    forall i | 0 <= i < |fs[1..]| ensures LegalFrame(fs[1..][i], max) { assert fs[1..][i] == fs[i + 1]; }
  }

  lemma {:induction false} OneMoreTime(n: nat, max: nat)
    ensures (n + 1) * max == n * max + max
  {
  }

  /** The limit on every delivered message: that of a frame times the number of data frames read. */
  lemma {:induction false} DeliveredBound(s: seq<byte>, max: nat, utf8: Utf8, sent: seq<Sent>)
    returns (fs: seq<Frame>, f: Frame, masks: seq<Mask>)
    requires Read(s, max, utf8, Fresh, sent).result.Message?
    ensures AllLegal(fs + [f], max) && |masks| == |fs| + 1
    ensures s == WireOf(fs + [f], masks) + Read(s, max, utf8, Fresh, sent).rest
    ensures |Read(s, max, utf8, Fresh, sent).result.payload| <= DataCount(fs + [f]) * max
  {
    fs, f, masks := Delivered(s, max, utf8, Progress(Fresh, sent));
    FeedExactly(fs, Progress(Fresh, sent), utf8);
    assert [] + DataOf(fs) == DataOf(fs);
    DataOfLast(fs, f);
    DataBound(fs + [f], max);
  }

  /** The size of the message that a call delivers from these frames, if it does. */
  function MessageSize(fs: seq<Frame>, masks: seq<Mask>, max: int, utf8: Utf8, p: Progress): nat
    requires |fs| == |masks| && forall i | 0 <= i < |fs| :: fs[i].opcode < 16
  {
    var r := Read(WireOf(fs, masks), max, utf8, p.a, p.sent).result;
    if r.Message? then |r.payload| else 0
  }

  lemma {:induction false} TakesAtMost(f: Frame, a: Assembly, utf8: Utf8)
    ensures var m, all := Handle(f, a, utf8), |a.buf| + (if IsData(f) then |f.payload| else 0);
      (m.More? ==> |m.a.buf| <= all) && (m.Deliver? ==> |m.payload| <= all)
  {
  }

  /** However soon the call ends, it delivers no more than the frames on the wire carry. */
  lemma {:induction false} ReadWithin(fs: seq<Frame>, masks: seq<Mask>, max: int, utf8: Utf8, p: Progress)
    requires AllLegal(fs, max) && |masks| == |fs|
    ensures MessageSize(fs, masks, max, utf8, p) <= |p.a.buf| + |DataOf(fs)|
    decreases |fs|
  {
    if fs != [] {
      var f, m := fs[0], Handle(fs[0], p.a, utf8);
      assert LegalFrame(f, max);
      TakesAtMost(f, p.a, utf8);
      var rest := WireOf(fs[1..], masks[1..]);
      if m.More? {
        ReadMore(f, masks[0], rest, max, utf8, p);
        LegalTail(fs, max);
        ReadWithin(fs[1..], masks[1..], max, utf8, Progress(m.a, p.sent + m.sent));
      } else {
        ReadLast(f, masks[0], rest, max, utf8, p);
      }
    }
  }

  /** No message of n legal data frames, under any keys and with any control frames, exceeds max. */
  ghost predicate LimitHolds(n: nat, max: nat) {
    forall fs, masks, utf8 | AllLegal(fs, max) && |masks| == |fs| && DataCount(fs) == n ::
      MessageSize(fs, masks, max, utf8, Progress(Fresh, [])) <= max
  }

  /** n binary fragments of max bytes each. */
  function Full(n: nat, max: nat): seq<Piece> {
    seq(n, i => Piece([], seq(max, j => 0)))
  }

  lemma {:induction false} FullFrames(n: nat, ps: seq<Piece>, k: nat, max: nat)
    requires ps == Full(n, max) && k <= n && max < TwoTo63
    ensures var fs := Frames(OpBinary, ps, k);
      |fs| == k && AllLegal(fs, max) && DataCount(fs) == k && |Data(ps, k)| == k * max
    decreases k
  {
    if k > 0 {
      FullFrames(n, ps, k - 1, max);
      var fs, f := Frames(OpBinary, ps, k - 1), Fragment(OpBinary, ps, k - 1);
      assert ControlFrames(ps[k - 1].controls) == [] && fs + [] == fs;
      DataOfLast(fs, f);
      OneMoreTime(k - 1, max);
    }
  }

  lemma {:induction false} FullDelivered(n: nat, max: nat, utf8: Utf8) returns (fs: seq<Frame>, masks: seq<Mask>)
    requires n > 0 && max < TwoTo63
    ensures AllLegal(fs, max) && |masks| == |fs| && DataCount(fs) == n
    ensures MessageSize(fs, masks, max, utf8, Progress(Fresh, [])) == n * max
  {
    var ps := Full(n, max);
    FullFrames(n, ps, n, max);
    fs, masks := Frames(OpBinary, ps, n), seq(n, i => NoMask);
    Reassembles(OpBinary, ps, masks, [], max, utf8, []);
    assert WireOf(fs, masks) + [] == WireOf(fs, masks);
  }

  /** The size limit is one on frames, not on messages: it holds for the messages of n data frames
      exactly when there is at most one, or none may carry anything. */
  lemma {:induction false} LimitIsPerFrame(n: nat, max: nat)
    requires max < TwoTo63
    ensures LimitHolds(n, max) <==> n <= 1 || max == 0
  {
    if n <= 1 || max == 0 {
      forall fs, masks, utf8 | AllLegal(fs, max) && |masks| == |fs| && DataCount(fs) == n
        ensures MessageSize(fs, masks, max, utf8, Progress(Fresh, [])) <= max
      {
        ReadWithin(fs, masks, max, utf8, Progress(Fresh, []));
        DataBound(fs, max);
      }
    } else {
      var utf8 := (s: seq<byte>) => true;
      var fs, masks := FullDelivered(n, max, utf8);
      TimesMore(n, max);
    }
  }

  lemma {:induction false} TimesMore(n: nat, max: nat)
    requires n > 1 && max > 0
    ensures n * max > max
  {
  }
}
