/**
  WebSocket frames (ws/conn.go): header building, masking and the frame-reading half of
  ReadMessage (sections 5.2 to 5.5 of RFC 6455).
*/
module WsFrames {
  import opened Optional
  import opened Words

  datatype Frame = Frame(fin: bool, opcode: nat, payload: seq<byte>)

  datatype Error =
    | Closed | EOF | UnexpectedEOF | ReservedBits | MaskRequired | FragmentedControl | ControlTooLarge
    | NonMinimal | TooLarge | InvalidUTF8 | NotWebSocket

  const TwoTo63 := 0x8000_0000_0000_0000

  // ----- headers -----

  /** The bytes of a frame header, the length in its shortest form. */
  function HeaderBytes(fin: bool, opcode: nat, length: nat, compress: bool, client: bool): (s: seq<byte>)
    requires opcode < 16
    ensures |s| == if length < 126 then 2 else if length <= 0xffff then 4 else 10
  {
    var b0: byte := (if fin then 128 else 0) + (if compress then 64 else 0) + opcode;
    var mask := if client then 128 else 0;
    if length < 126 then [b0, mask + length]
    else if length <= 0xffff then [b0, mask + 126] + PutBytes(length, 2)
    else [b0, mask + 127] + PutBytes(length, 8)
  }

  lemma {:induction false} OrTop(k: nat, x: nat)
    requires x < Pow2(k)
    ensures Or(Pow2(k), x) == Pow2(k) + x && Or(x, Pow2(k)) == x + Pow2(k)
  {
    ShlIsTimes(1, k);
    OrBelow(1, k, x);
    OrCommutes(x, Pow2(k));
  }

  lemma {:induction false} SevenBits()
    ensures Pow2(6) == 64 && Pow2(7) == 128
  {
    Pow2Values();
    assert Pow2(6) == 2 * Pow2(5) && Pow2(5) == 2 * Pow2(4) && Pow2(7) == 2 * Pow2(6);
  }

  lemma {:induction false} FirstOctet(opcode: nat)
    requires opcode < 16
    ensures Or(0x80, opcode) == 128 + opcode && Or(128 + opcode, 0x40) == 192 + opcode
  {
    SevenBits();
    OrTop(7, opcode);
    ShlIsTimes(2, 6); ShlIsTimes(1, 6); ShlIsTimes(3, 6);
    OrAbove(2, 1, 6, opcode);
    assert Or(2, 1) == 1 + 2 * Or(1, 0);
    OrZero(1);
  }

  lemma {:induction false} SecondOctet(low: nat, client: bool)
    requires low < 128
    ensures Or(if client then 0x80 else 0, low) == (if client then 128 else 0) + low
  {
    SevenBits();
    OrTop(7, low);
    OrCommutes(0, low);
    OrZero(low);
  }

  method BuildFrameHeader(dst: array<byte>, opcode: nat, length: nat, compress: bool, isClient: bool) returns (n: nat)
    requires opcode < 16 && length < TwoTo63 && dst.Length >= |HeaderBytes(true, opcode, length, compress, isClient)|
    modifies dst
    ensures n == |HeaderBytes(true, opcode, length, compress, isClient)|
    ensures dst[..n] == HeaderBytes(true, opcode, length, compress, isClient)
    ensures forall i | n <= i < dst.Length :: dst[i] == old(dst[i])
  {
    PutHead(dst, opcode, if length < 126 then length else if length <= 0xffff then 126 else 127, compress, isClient);
    if length < 126 { return 2; }
    n := PutExtension(dst, length);
  }

  /** The two octets every header has. */
  method PutHead(dst: array<byte>, opcode: nat, low: nat, compress: bool, isClient: bool)
    requires opcode < 16 && low < 128 && dst.Length >= 2
    modifies dst
    ensures dst[..2] == [128 + (if compress then 64 else 0) + opcode, (if isClient then 128 else 0) + low]
    ensures forall i | 2 <= i < dst.Length :: dst[i] == old(dst[i])
  {
    FirstOctet(opcode);
    SecondOctet(low, isClient);
    dst[0] := Or(0x80, opcode);
    if compress { dst[0] := Or(dst[0], 0x40); }
    dst[1] := if isClient then 0x80 else 0;
    dst[1] := Or(dst[1], low);
  }

  method PutExtension(dst: array<byte>, length: nat) returns (n: nat)
    requires 126 <= length && dst.Length >= (if length <= 0xffff then 4 else 10)
    modifies dst
    ensures n == (if length <= 0xffff then 4 else 10) && dst[..2] == old(dst[..2])
    ensures dst[..n] == dst[..2] + PutBytes(length, if length <= 0xffff then 2 else 8)
    ensures forall i | n <= i < dst.Length :: dst[i] == old(dst[i])
  {
    var k := if length <= 0xffff then 2 else 8;
    var ext := PutBytes(length, k);
    forall i | 0 <= i < k { dst[2 + i] := ext[i]; }
    n := 2 + k;
  }

  // ----- reading a header -----

  /** io.ReadFull that gets fewer bytes than it wants. */
  function Short(got: nat): Error { if got == 0 then EOF else UnexpectedEOF }

  /** An accepted header, a protocol violation with the status it closes the connection with, or
      the end of the input. */
  datatype HeaderResult = Header(fin: bool, opcode: nat, length: nat, size: nat) | Violation(error: Error, status: nat) | Ended(error: Error)

  function ReadLength(s: seq<byte>, len7: nat): (r: HeaderResult)
    requires |s| >= 2 && len7 < 128
    ensures r.Header? ==> 2 <= r.size <= |s|
  {
    if len7 == 126 then
      if |s| < 4 then Ended(Short(|s| - 2)) else
        var n := BigEndian(s[2..4]);
        if n < 126 then Violation(NonMinimal, 1002) else Header(false, 0, n, 4)
    else if len7 == 127 then
      if |s| < 10 then Ended(Short(|s| - 2))
      else if s[2] >= 0x80 then Violation(NonMinimal, 1002) else
        var n := BigEndian(s[2..10]);
        if n <= 65535 then Violation(NonMinimal, 1002) else Header(false, 0, n, 10)
    else Header(false, 0, len7, 2)
  }

  /** The checks of ReadMessage, in its order. */
  function ReadHeader(s: seq<byte>, max: int): (r: HeaderResult)
    ensures r.Header? ==> 2 <= r.size <= |s|
  {
    if |s| < 2 then Ended(Short(|s|)) else
      var fin, rsv, opcode := s[0] / 128 == 1, s[0] / 16 % 8, s[0] % 16;
      var masked, len7 := s[1] / 128 == 1, s[1] % 128;
      if rsv != 0 then Violation(ReservedBits, 1002)
      else if !masked then Violation(MaskRequired, 1002)
      else if opcode >= 8 && !fin then Violation(FragmentedControl, 1002)
      else if opcode >= 8 && len7 > 125 then Violation(ControlTooLarge, 1002)
      else
        var r := ReadLength(s, len7);
        if !r.Header? then r
        else if r.length > max then Violation(TooLarge, 1009)
        else Header(fin, opcode, r.length, r.size)
  }

  /** What section 5.5 asks of control frames, and the limit. */
  predicate Legal(fin: bool, opcode: nat, length: nat, max: int) {
    opcode < 16 && length < TwoTo63 && length <= max && (opcode >= 8 ==> fin && length <= 125)
  }

  lemma {:induction false} PowersOfBytes()
    ensures Pow2(16) == 0x1_0000 && Pow2(63) == TwoTo63 && Pow2(64) == 2 * TwoTo63
  {
    Pow2Values();
    assert Pow2(64) == 2 * Pow2(63);
  }

  /** The extended length is read back, and nothing else is accepted for it. */
  lemma {:induction false} ExtendedLength(s: seq<byte>, k: nat, length: nat)
    requires (k == 2 || k == 8) && |s| >= 2 + k && (k == 2 ==> length < 0x1_0000) && (k == 8 ==> length < 2 * TwoTo63)
    ensures s[2..2 + k] == PutBytes(length, k) <==> BigEndian(s[2..2 + k]) == length
    ensures BigEndian(s[2..2 + k]) < (if k == 2 then 0x1_0000 else 2 * TwoTo63)
    ensures k == 8 ==> (s[2] < 0x80 <==> BigEndian(s[2..10]) < TwoTo63)
  {
    var t := s[2..2 + k];
    PowersOfBytes();
    GetPut(length, k);
    PutGet(t);
    if k == 8 {
      SevenBits();
      FirstByte(BigEndian(t), k);
      TopBelow(BigEndian(t), 56, 7);
    }
  }

  /** A built header is read back. */
  lemma {:induction false} BuiltIsRead(fin: bool, opcode: nat, length: nat, max: int, s: seq<byte>)
    requires Legal(fin, opcode, length, max) && HeaderBytes(fin, opcode, length, false, true) <= s
    ensures ReadHeader(s, max) == Header(fin, opcode, length, |HeaderBytes(fin, opcode, length, false, true)|)
  {
    var h := HeaderBytes(fin, opcode, length, false, true);
    assert s[0] == h[0] && s[1] == h[1];
    if length >= 126 {
      var k := if length <= 0xffff then 2 else 8;
      ExtensionOf(s, h, h[..2], PutBytes(length, k), k);
      ExtendedLength(s, k, length);
    }
  }

  lemma {:induction false} ExtensionOf(s: seq<byte>, h: seq<byte>, front: seq<byte>, ext: seq<byte>, k: nat)
    requires h <= s && h == front + ext && |front| == 2 && |ext| == k
    ensures |s| >= 2 + k && s[2..2 + k] == ext
  {
    assert s[2..2 + k] == h[2..2 + k];
  }

  /** And nothing else is accepted: an accepted header is the one that would be built for its fields. */
  lemma {:induction false} ReadIsBuilt(s: seq<byte>, max: int)
    requires ReadHeader(s, max).Header?
    ensures var r := ReadHeader(s, max);
      && Legal(r.fin, r.opcode, r.length, max)
      && s[..r.size] == HeaderBytes(r.fin, r.opcode, r.length, false, true)
  {
    var r := ReadHeader(s, max);
    var k := r.size - 2;
    assert s[..r.size] == [s[0], s[1]] + s[2..2 + k];
    assert s[0] == (if r.fin then 128 else 0) + r.opcode && s[1] == 128 + s[1] % 128;
    if k > 0 {
      assert BigEndian(s[2..2 + k]) == r.length;
      ExtendedLength(s, k, 0);
      ExtendedLength(s, k, r.length);
    }
  }

  /** Accepted headers and built headers are the same thing, so that every accepted length has one encoding. */
  lemma {:induction false} HeadersCorrespond(s: seq<byte>, fin: bool, opcode: nat, length: nat, max: int)
    requires opcode < 16
    ensures (exists n: nat :: ReadHeader(s, max) == Header(fin, opcode, length, n)) <==>
      Legal(fin, opcode, length, max) && HeaderBytes(fin, opcode, length, false, true) <= s
  {
    var h := HeaderBytes(fin, opcode, length, false, true);
    if Legal(fin, opcode, length, max) && h <= s {
      BuiltIsRead(fin, opcode, length, max, s);
    }
    if ReadHeader(s, max).Header? { ReadIsBuilt(s, max); }
  }

  // ----- any header -----

  /** The fields of a header as they stand on the wire; the length may be written in 0, 2 or 8
      octets of its own, shortest or not. */
  datatype HeaderFields = HeaderFields(fin: bool, rsv: nat, opcode: nat, masked: bool, ext: nat, length: nat) {
    predicate Valid() {
      && rsv < 8 && opcode < 16
      && if ext == 0 then length < 126 else if ext == 2 then length < 0x1_0000 else ext == 8 && length < 2 * TwoTo63
    }
  }

  function HeaderOf(h: HeaderFields): (s: seq<byte>)
    requires h.Valid()
    ensures |s| == 2 + h.ext
  {
    [(if h.fin then 128 else 0) + 16 * h.rsv + h.opcode,
     (if h.masked then 128 else 0) + (if h.ext == 0 then h.length else if h.ext == 2 then 126 else 127)]
    + PutBytes(h.length, h.ext)
  }

  /** What section 5 of RFC 6455 and the size limit forbid, in the order it is looked for. */
  function Fault(h: HeaderFields, max: int): Option<Error> {
    if h.rsv != 0 then Some(ReservedBits)
    else if !h.masked then Some(MaskRequired)
    else if h.opcode >= 8 && !h.fin then Some(FragmentedControl)
    else if h.opcode >= 8 && h.ext != 0 then Some(ControlTooLarge)
    else if (h.ext == 2 && h.length < 126) || (h.ext == 8 && (h.length < 0x1_0000 || h.length >= TwoTo63)) then Some(NonMinimal)
    else if h.length > max then Some(TooLarge)
    else None
  }

  /** A header with any fields is accepted with them, or refused for its first fault: with status
      1009 for the limit and 1002 otherwise. */
  lemma {:induction false} ReadsAnyHeader(h: HeaderFields, rest: seq<byte>, max: int)
    requires h.Valid()
    ensures ReadHeader(HeaderOf(h) + rest, max) ==
      match Fault(h, max)
      case None => Header(h.fin, h.opcode, h.length, 2 + h.ext)
      case Some(e) => Violation(e, if e == TooLarge then 1009 else 1002)
  {
    var s := HeaderOf(h) + rest;
    HeaderOctets(h, rest, s);
    if h.ext != 0 { ExtendedLength(s, h.ext, h.length); }
  }

  lemma {:induction false} HeaderOctets(h: HeaderFields, rest: seq<byte>, s: seq<byte>)
    requires h.Valid() && s == HeaderOf(h) + rest
    ensures s[0] / 128 == (if h.fin then 1 else 0) && s[0] / 16 % 8 == h.rsv && s[0] % 16 == h.opcode
    ensures s[1] / 128 == (if h.masked then 1 else 0)
    ensures s[1] % 128 == if h.ext == 0 then h.length else if h.ext == 2 then 126 else 127
    ensures s[2..2 + h.ext] == PutBytes(h.length, h.ext)
  {
    var head := HeaderOf(h);
    assert s[0] == head[0] && s[1] == head[1];
    assert s[2..2 + h.ext] == head[2..];
  }

  // ----- masking -----

  type Mask = m: seq<byte> | |m| == 4 witness [0, 0, 0, 0]

  lemma {:induction false} XorByte(a: byte, b: byte)
    ensures Xor(a, b) < 256 && Xor(Xor(a, b), b) == a
  {
    Pow2Values();
    XorBound(a, b, 8);
    XorInvolutive(a, b);
  }

  function MaskByte(a: byte, b: byte): byte {
    XorByte(a, b);
    Xor(a, b)
  }

  /** Octet i is combined with octet i mod 4 of the key. */
  function Masked(payload: seq<byte>, mask: Mask): (s: seq<byte>)
    ensures |s| == |payload|
  {
    seq(|payload|, i requires 0 <= i < |payload| => MaskByte(payload[i], mask[i % 4]))
  }

  lemma {:induction false} MaskTwice(payload: seq<byte>, mask: Mask)
    ensures Masked(Masked(payload, mask), mask) == payload
  {
    forall i | 0 <= i < |payload| ensures Masked(Masked(payload, mask), mask)[i] == payload[i] {
      XorByte(payload[i], mask[i % 4]);
    }
  }

  method ApplyMask(payload: array<byte>, mask: Mask)
    modifies payload
    ensures payload[..] == Masked(old(payload[..]), mask)
  {
    for k := 0 to payload.Length
      invariant forall i | 0 <= i < k :: payload[i] == MaskByte(old(payload[i]), mask[i % 4])
      invariant forall i | k <= i < payload.Length :: payload[i] == old(payload[i])
    {
      payload[k] := MaskByte(payload[k], mask[k % 4]);
    }
  }

  // ----- reading a frame -----

  datatype FrameResult = Got(frame: Frame, rest: seq<byte>) | Refused(error: Error, status: nat) | Stopped(error: Error)

  function ReadFrame(s: seq<byte>, max: int): (r: FrameResult)
    ensures r.Got? ==> |r.rest| < |s|
  {
    match ReadHeader(s, max)
    case Ended(e) => Stopped(e)
    case Violation(e, status) => Refused(e, status)
    case Header(fin, opcode, length, size) =>
      var t := s[size..];
      if |t| < 4 then Stopped(Short(|t|))
      else if |t| - 4 < length then Stopped(Short(|t| - 4))
      else Got(Frame(fin, opcode, Masked(t[4..4 + length], t[..4])), t[4 + length..])
  }

  /** A client's frame on the wire. */
  function ClientFrame(f: Frame, mask: Mask): seq<byte>
    requires f.opcode < 16
  {
    HeaderBytes(f.fin, f.opcode, |f.payload|, false, true) + mask + Masked(f.payload, mask)
  }

  predicate LegalFrame(f: Frame, max: int) { Legal(f.fin, f.opcode, |f.payload|, max) }

  /** Reading a client's frame gives it back, whatever its key, and consumes exactly it. */
  lemma {:induction false} ReadsClientFrame(f: Frame, mask: Mask, max: int, rest: seq<byte>)
    requires LegalFrame(f, max)
    ensures ReadFrame(ClientFrame(f, mask) + rest, max) == Got(f, rest)
  {
    var h := HeaderBytes(f.fin, f.opcode, |f.payload|, false, true);
    var body := Masked(f.payload, mask);
    var s := ClientFrame(f, mask) + rest;
    var t := mask + body + rest;
    assert s == h + t;
    assert s[|h|..] == t && t[..4] == mask && t[4..4 + |body|] == body && t[4 + |body|..] == rest;
    BuiltIsRead(f.fin, f.opcode, |f.payload|, max, s);
    MaskTwice(f.payload, mask);
  }

  /** Whatever is accepted is a legal client frame. */
  lemma {:induction false} AcceptedIsClientFrame(s: seq<byte>, max: int) returns (mask: Mask)
    requires ReadFrame(s, max).Got?
    ensures var r := ReadFrame(s, max); LegalFrame(r.frame, max) && s == ClientFrame(r.frame, mask) + r.rest
  {
    var r := ReadFrame(s, max);
    var h := ReadHeader(s, max);
    ReadIsBuilt(s, max);
    var t := s[h.size..];
    mask := t[..4];
    var body := t[4..4 + h.length];
    MaskTwice(body, mask);
    PutTogether(s, h.size, h.length, mask, body, r.rest);
  }

  lemma {:induction false} PutTogether(s: seq<byte>, h: nat, n: nat, mask: seq<byte>, body: seq<byte>, rest: seq<byte>)
    requires h + 4 + n <= |s| && mask == s[h..][..4] && body == s[h..][4..4 + n] && rest == s[h..][4 + n..]
    ensures s == s[..h] + mask + body + rest
  {
    FourParts(s, h, h + 4, h + 4 + n);
    SlicesFrom(s, h, n);
  }

  /** A frame cut short is reported as the end of the input: as a clean end where one read of the
      reader ends and the next begins, after the two octets, the header or the key. */
  lemma {:induction false} ReadsCutFrame(f: Frame, mask: Mask, n: nat, max: int)
    requires LegalFrame(f, max) && n < |ClientFrame(f, mask)|
    ensures var h := |ClientFrame(f, mask)| - |f.payload| - 4;
      ReadFrame(ClientFrame(f, mask)[..n], max) == Stopped(if n == 0 || n == 2 || n == h || n == h + 4 then EOF else UnexpectedEOF)
  {
    var head := HeaderBytes(f.fin, f.opcode, |f.payload|, false, true);
    var s := ClientFrame(f, mask)[..n];
    if n >= |head| {
      assert s[..|head|] == head;
      BuiltIsRead(f.fin, f.opcode, |f.payload|, max, s);
    } else if n >= 2 {
      assert s[0] == head[0] && s[1] == head[1];
    }
  }

  lemma {:induction false} FourParts(s: seq<byte>, a: nat, b: nat, c: nat)
    requires a <= b <= c <= |s|
    ensures s == s[..a] + s[a..b] + s[b..c] + s[c..]
  {
  }

  lemma {:induction false} SlicesFrom(s: seq<byte>, a: nat, n: nat)
    requires a + 4 + n <= |s|
    ensures s[a..][..4] == s[a..a + 4] && s[a..][4..4 + n] == s[a + 4..a + 4 + n] && s[a..][4 + n..] == s[a + 4 + n..]
  {
  }
}
