/**
  Brotli's greedy/lazy match finder (internal/compress/brotli/backward_references.go)
  against a decoder written from section 4 of RFC 7932.
*/
module BackwardReferences {
  import opened Optional
  import opened Words
  import opened SearchLog

  const NUM_DISTANCE_SHORT_CODES := 16
  const WORD := 0x1_0000_0000_0000_0000
  const MAX_DISTANCE := 0x8000_0000_0000_0000

  /** The last four distances, most recent first. */
  datatype Ring = Ring(last: nat, second: nat, third: nat, fourth: nat) {
    predicate Valid() {
      last < MAX_DISTANCE && second < MAX_DISTANCE && third < MAX_DISTANCE && fourth < MAX_DISTANCE
    }

    function Push(distance: nat): Ring { Ring(distance, last, second, third) }
  }

  datatype Command = Command(insertLen: nat, copyLen: nat, copyLenCode: nat, distanceCode: nat)

  // ----- distance codes -----

  function ComputeDistanceCode(distance: nat, maxDistance: nat, cache: Ring): nat {
    var offset0 := (distance + 3 - cache.last) % WORD;
    var offset1 := (distance + 3 - cache.second) % WORD;
    if distance <= maxDistance && distance == cache.last then 0
    else if distance <= maxDistance && distance == cache.second then 1
    else if distance <= maxDistance && offset0 < 7 then Trunc(Shr(0x9750468, 4 * offset0), 4)
    else if distance <= maxDistance && offset1 < 7 then Trunc(Shr(0xFDB1ACE, 4 * offset1), 4)
    else if distance <= maxDistance && distance == cache.third then 2
    else if distance <= maxDistance && distance == cache.fourth then 3
    else distance + NUM_DISTANCE_SHORT_CODES - 1
  }

  /** Section 4 of RFC 7932, with no postfix bits and no direct codes. */
  function DecodeDistance(code: nat, ring: Ring): int {
    if code == 0 then ring.last else if code == 1 then ring.second
    else if code == 2 then ring.third else if code == 3 then ring.fourth
    else if code == 4 then ring.last - 1 else if code == 5 then ring.last + 1
    else if code == 6 then ring.last - 2 else if code == 7 then ring.last + 2
    else if code == 8 then ring.last - 3 else if code == 9 then ring.last + 3
    else if code == 10 then ring.second - 1 else if code == 11 then ring.second + 1
    else if code == 12 then ring.second - 2 else if code == 13 then ring.second + 2
    else if code == 14 then ring.second - 3 else if code == 15 then ring.second + 3
    else code - 15
  }

  /** Hexadecimal digit o of x. */
  function Digit(x: nat, o: nat): nat
    decreases o, x
  {
    if o == 0 then x % 16 else Digit(x / 16, o - 1)
  }

  lemma {:induction false} NibbleIsDigit(x: nat, o: nat)
    ensures Trunc(Shr(x, 4 * o), 4) == Digit(x, o)
    decreases o
  {
    if o == 0 {
      assert Trunc(x, 4) == x % 2 + 2 * Trunc(x / 2, 3);
      assert Trunc(x / 2, 3) == x / 2 % 2 + 2 * Trunc(x / 2 / 2, 2);
      assert Trunc(x / 4, 2) == x / 4 % 2 + 2 * Trunc(x / 4 / 2, 1);
      assert Trunc(x / 8, 1) == x / 8 % 2;
    } else {
      var k: nat := 4 * (o - 1);
      assert Shr(x, k + 4) == Shr(x / 2, k + 3);
      assert Shr(x / 2, k + 3) == Shr(x / 4, k + 2);
      assert Shr(x / 4, k + 2) == Shr(x / 8, k + 1);
      assert Shr(x / 8, k + 1) == Shr(x / 16, k);
      NibbleIsDigit(x / 16, o - 1);
    }
  }

  lemma {:induction false} Nibbles(o: nat)
    requires o < 7
    ensures Trunc(Shr(0x9750468, 4 * o), 4) == [8, 6, 4, 0, 5, 7, 9][o]
    ensures Trunc(Shr(0xFDB1ACE, 4 * o), 4) == [14, 12, 10, 1, 11, 13, 15][o]
  {
    NibbleIsDigit(0x9750468, o);
    NibbleIsDigit(0xFDB1ACE, o);
    FirstDigits(o);
  }

  lemma {:induction false} FirstDigits(o: nat)
    requires o < 7
    ensures Digit(0x9750468, o) == [8, 6, 4, 0, 5, 7, 9][o]
    ensures Digit(0xFDB1ACE, o) == [14, 12, 10, 1, 11, 13, 15][o]
  {
    assert Digit(0x9750468, 0) == 8 && Digit(0x9750468, 1) == 6 && Digit(0x9750468, 2) == 4 && Digit(0x9750468, 3) == 0;
    assert Digit(0x9750468, 4) == 5 && Digit(0x9750468, 5) == 7 && Digit(0x9750468, 6) == 9;
    assert Digit(0xFDB1ACE, 0) == 14 && Digit(0xFDB1ACE, 1) == 12 && Digit(0xFDB1ACE, 2) == 10 && Digit(0xFDB1ACE, 3) == 1;
    assert Digit(0xFDB1ACE, 4) == 11 && Digit(0xFDB1ACE, 5) == 13 && Digit(0xFDB1ACE, 6) == 15;
  }

  /** Decoding inverts coding, and code 0 means exactly "the last distance". */
  lemma {:induction false} DistanceCodeInverts(distance: nat, maxDistance: nat, cache: Ring)
    requires distance >= 1 && distance < MAX_DISTANCE
    requires cache.Valid()
    ensures Codes(ComputeDistanceCode(distance, maxDistance, cache), distance, maxDistance, cache)
  {
    var o0, o1 := distance + 3 - cache.last, distance + 3 - cache.second;
    SmallOffset(o0);
    SmallOffset(o1);
    if 0 <= o0 < 7 && o0 != 3 { NearLast(o0, cache); }
    if 0 <= o1 < 7 && o1 != 3 { NearSecond(o1, cache); }
  }

  /** A distance inside the window gets a short code exactly when one of the sixteen stands for it;
      a distance beyond gets none. */
  lemma {:induction false} ShortCodeExactly(distance: nat, maxDistance: nat, cache: Ring)
    requires 1 <= distance < MAX_DISTANCE && cache.Valid()
    ensures ComputeDistanceCode(distance, maxDistance, cache) < NUM_DISTANCE_SHORT_CODES <==>
      distance <= maxDistance && exists c: nat | c < NUM_DISTANCE_SHORT_CODES :: DecodeDistance(c, cache) == distance
  {
    DistanceCodeInverts(distance, maxDistance, cache);
    var o0, o1 := distance + 3 - cache.last, distance + 3 - cache.second;
    SmallOffset(o0);
    SmallOffset(o1);
    if 0 <= o0 < 7 { Nibbles(o0); }
    if 0 <= o1 < 7 { Nibbles(o1); }
    if c: nat :| c < NUM_DISTANCE_SHORT_CODES && DecodeDistance(c, cache) == distance {
      assert c == 0 || 4 <= c < 10 ==> 0 <= o0 < 7;
      assert c == 1 || 10 <= c ==> 0 <= o1 < 7;
    }
  }

  lemma {:induction false} NearLast(o: nat, ring: Ring)
    requires o < 7 && o != 3
    ensures var code := Trunc(Shr(0x9750468, 4 * o), 4); code > 0 && DecodeDistance(code, ring) == ring.last + o - 3
  {
    Nibbles(o);
  }

  lemma {:induction false} NearSecond(o: nat, ring: Ring)
    requires o < 7 && o != 3
    ensures var code := Trunc(Shr(0xFDB1ACE, 4 * o), 4); code > 0 && DecodeDistance(code, ring) == ring.second + o - 3
  {
    Nibbles(o);
  }

  /** The unsigned offset test sees through wrap-around. */
  lemma {:induction false} SmallOffset(o: int)
    requires -MAX_DISTANCE < o < MAX_DISTANCE + 3
    ensures o % WORD < 7 <==> 0 <= o < 7
    ensures 0 <= o < 7 ==> o % WORD == o
  {
  }

  // ----- the decoder -----

  /** dict(lengthCode, index) is the transformed static-dictionary word. */
  type Dictionary = (nat, nat) -> seq<byte>

  /** `used` counts the bytes taken from the literal stream. */
  datatype Decoder = Decoder(out: seq<byte>, ring: Ring, used: nat)

  /** The overlapping copy: byte by byte from distance back. */
  function CopyMatch(out: seq<byte>, distance: nat, len: nat): seq<byte>
    requires 1 <= distance <= |out|
    decreases len
  {
    if len == 0 then out else CopyMatch(out + [out[|out| - distance]], distance, len - 1)
  }

  function Step(d: Decoder, c: Command, literals: seq<byte>, limit: nat, dict: Dictionary): Option<Decoder> {
    if |literals| < d.used + c.insertLen then None else
      var used := d.used + c.insertLen;
      var out := d.out + literals[d.used..used];
      var distance := DecodeDistance(c.distanceCode, d.ring);
      var window := Min(|out|, limit);
      if distance <= 0 then None
      else if distance <= window then
        Some(Decoder(CopyMatch(out, distance, c.copyLenCode),
                     if c.distanceCode == 0 then d.ring else d.ring.Push(distance), used))
      else
        Some(Decoder(out + dict(c.copyLenCode, distance - window - 1), d.ring, used))
  }

  /** Runs the first n commands. */
  function Run(d: Decoder, cmds: seq<Command>, n: nat, literals: seq<byte>, limit: nat, dict: Dictionary): Option<Decoder>
    requires n <= |cmds|
  {
    if n == 0 then Some(d) else
      match Run(d, cmds, n - 1, literals, limit, dict)
      case None => None
      case Some(d') => Step(d', cmds[n - 1], literals, limit, dict)
  }

  /** A run that succeeds looks neither past its commands nor past the literals it uses. */
  lemma {:induction false} RunIgnoresRest(d: Decoder, cmds: seq<Command>, n: nat, literals: seq<byte>,
                                          later: seq<Command>, more: seq<byte>, limit: nat, dict: Dictionary)
    requires n <= |cmds| && d.used <= |literals|
    requires Run(d, cmds, n, literals, limit, dict).Some?
    ensures Run(d, cmds + later, n, literals + more, limit, dict) == Run(d, cmds, n, literals, limit, dict)
    ensures Run(d, cmds, n, literals, limit, dict).value.used <= |literals|
    decreases n
  {
    if n > 0 {
      RunIgnoresRest(d, cmds, n - 1, literals, later, more, limit, dict);
      StepIgnoresRest(Run(d, cmds, n - 1, literals, limit, dict).value, cmds[n - 1], literals, more, limit, dict);
    }
  }

  lemma {:induction false} StepIgnoresRest(d: Decoder, c: Command, literals: seq<byte>, more: seq<byte>,
                                           limit: nat, dict: Dictionary)
    requires Step(d, c, literals, limit, dict).Some?
    ensures Step(d, c, literals + more, limit, dict) == Step(d, c, literals, limit, dict)
    ensures Step(d, c, literals, limit, dict).value.used <= |literals|
  {
    assert (literals + more)[d.used..d.used + c.insertLen] == literals[d.used..d.used + c.insertLen];
  }

  // ----- what the encoder emits -----

  /** The bytes covered by the first n commands. */
  function Covered(cmds: seq<Command>, n: nat): nat
    requires n <= |cmds|
  {
    if n == 0 then 0 else Covered(cmds, n - 1) + cmds[n - 1].insertLen + cmds[n - 1].copyLen
  }

  function Inserted(cmds: seq<Command>, n: nat): nat
    requires n <= |cmds|
  {
    if n == 0 then 0 else Inserted(cmds, n - 1) + cmds[n - 1].insertLen
  }

  /** The literal stream: the bytes of data that the first n commands insert, from start on. */
  function Literals(data: seq<byte>, start: nat, cmds: seq<Command>, n: nat): seq<byte>
    requires n <= |cmds| && start + Covered(cmds, n) <= |data|
  {
    if n == 0 then [] else
      var p := start + Covered(cmds, n - 1);
      Literals(data, start, cmds, n - 1) + data[p..p + cmds[n - 1].insertLen]
  }

  /** Replays the first n commands after data[..start]. Some(ring) means: the decoder rebuilt data
      up to the end of the n-th copy, took exactly the literals stored for the n commands, and
      holds these last distances. */
  ghost function Replay(data: seq<byte>, start: nat, cmds: seq<Command>, n: nat, ring0: Ring,
                        limit: nat, dict: Dictionary): Option<Ring>
    requires n <= |cmds|
  {
    if start + Covered(cmds, n) > |data| then None else
    var literals := Literals(data, start, cmds, n);
    match Run(Decoder(data[..start], ring0, 0), cmds, n, literals, limit, dict)
    case None => None
    case Some(d) =>
      if d.out == data[..start + Covered(cmds, n)] && d.used == |literals| then Some(d.ring) else None
  }

  // ----- the hasher, as an oracle -----

  predicate Repeats(data: seq<byte>, i: nat, distance: nat)
    requires distance <= i < |data|
  {
    data[i] == data[i - distance]
  }

  ghost predicate RealMatch(data: seq<byte>, dict: Dictionary, position: nat, maxLength: nat, maxDistance: nat,
                            sr: SearchResult)
    requires position + maxLength <= |data| && maxDistance <= position
  {
    && 1 <= sr.len <= maxLength
    && 1 <= sr.distance < MAX_DISTANCE
    && sr.len + sr.lenCodeDelta >= 0
    && if sr.distance <= maxDistance then
         sr.lenCodeDelta == 0 &&
         forall i | position <= i < position + sr.len :: Repeats(data, i, sr.distance)
       else
         dict(sr.len + sr.lenCodeDelta, sr.distance - maxDistance - 1) == data[position..position + sr.len]
  }

  ghost predicate GoodHasher(data: seq<byte>, dict: Dictionary, find: Query -> SearchResult) {
    forall q: Query ::
      q.position + q.maxLength <= |data| && q.maxDistance <= q.position && find(q).score > K_MIN_SCORE
      ==> RealMatch(data, dict, q.position, q.maxLength, q.maxDistance, find(q))
  }

  lemma {:induction false} MainIsReal(data: seq<byte>, dict: Dictionary, s: Searches, pos: nat, call: nat)
    requires GoodHasher(data, dict, s.find) && pos <= s.posEnd == |data| && s.Main(pos, call).score > K_MIN_SCORE
    ensures RealMatch(data, dict, pos, s.posEnd - pos, Min(pos, s.params.maxBackwardLimit), s.Main(pos, call))
  {
    var q := Query(call, pos, 0, s.posEnd - pos, Min(pos, s.params.maxBackwardLimit));
    assert RealMatch(data, dict, q.position, q.maxLength, q.maxDistance, s.find(q));
  }

  lemma {:induction false} BeyondIsReal(data: seq<byte>, dict: Dictionary, s: Searches, pos: nat, call: nat, sr: SearchResult)
    requires GoodHasher(data, dict, s.find) && pos < s.posEnd == |data|
    ensures var next := s.Beyond(pos, call, sr);
      next.score > K_MIN_SCORE ==> RealMatch(data, dict, pos + 1, s.posEnd - pos - 1, Min(pos + 1, s.params.maxBackwardLimit), next)
  {
    var maxLength := s.posEnd - pos - 1;
    var bestLen := s.BestLen(sr, maxLength);
    var q := Query(call, pos + 1, bestLen, maxLength, Min(pos + 1, s.params.maxBackwardLimit));
    if s.find(q).score > K_MIN_SCORE { assert RealMatch(data, dict, q.position, q.maxLength, q.maxDistance, s.find(q)); }
  }

  /** What a climb ends on. */
  ghost function ClimbTo(s: Searches, from: nat, call: nat, found: seq<SearchResult>): Option<SearchResult> {
    if Climbs(s, from, call, found) then Some(found[|found| - 1]) else None
  }

  /** What the searches of a round end on. */
  ghost function Settled(s: Searches, from: nat, call: nat, found: seq<SearchResult>): Option<SearchResult> {
    if Climbs(s, from, call, found) && Stops(s, from, call, found) then Some(found[|found| - 1]) else None
  }

  lemma {:induction false} ClimbStarts(s: Searches, from: nat, call: nat)
    requires from < s.posEnd && s.Main(from, call).score > K_MIN_SCORE
    ensures ClimbTo(s, from, call, [s.Main(from, call)]) == Some(s.Main(from, call))
  {
  }

  lemma {:induction false} Settles(s: Searches, from: nat, call: nat, found: seq<SearchResult>, sr: SearchResult)
    requires ClimbTo(s, from, call, found) == Some(sr) && |found| > 0 && from < s.posEnd
    requires Spent(s, from, found) || s.Beyond(from + |found| - 1, call + |found|, sr).score < sr.score + COST_DIFF_LAZY
    ensures Settled(s, from, call, found) == Some(sr)
  {
  }

  lemma {:induction false} ClimbMore(s: Searches, from: nat, call: nat, found: seq<SearchResult>, sr: SearchResult, next: SearchResult)
    requires ClimbTo(s, from, call, found) == Some(sr) && |found| < 5 && from + |found| <= s.posEnd
    requires next == s.Beyond(from + |found| - 1, call + |found|, sr) && next.score >= sr.score + COST_DIFF_LAZY
    requires |found| > 1 ==> s.Room(from + |found| - 1)
    ensures ClimbTo(s, from, call, found + [next]) == Some(next)
  {
    ClimbsMore(s, from, call, found, next);
  }

  lemma {:induction false} Climbed(data: seq<byte>, dict: Dictionary, s: Searches, from: nat, call: nat, found: seq<SearchResult>,
                                   sr: SearchResult, pos: nat)
    requires GoodHasher(data, dict, s.find) && s.posEnd == |data| && ClimbTo(s, from, call, found) == Some(sr)
    requires |found| > 0 && pos == from + |found| - 1 <= s.posEnd
    ensures RealMatch(data, dict, pos, s.posEnd - pos, Min(pos, s.params.maxBackwardLimit), sr)
  {
    if |found| == 1 {
      MainIsReal(data, dict, s, from, call);
    } else {
      var prior := LastMove(s, from, call, found, sr);
      BeyondIsReal(data, dict, s, pos - 1, call + |found| - 1, prior);
    }
  }

  lemma {:induction false} LastMove(s: Searches, from: nat, call: nat, found: seq<SearchResult>, sr: SearchResult) returns (prior: SearchResult)
    requires ClimbTo(s, from, call, found) == Some(sr) && |found| > 1 && from + |found| - 1 <= s.posEnd
    ensures sr == s.Beyond(from + |found| - 2, call + |found| - 1, prior) && sr.score > K_MIN_SCORE
  {
    prior := found[|found| - 2];
    Gained(s, from, call, found, |found|);
    assert MovesOn(s, from, call, found, |found| - 1);
  }

  // ----- one command -----

  lemma {:induction false} CopyMatchRebuilds(data: seq<byte>, pos: nat, distance: nat, len: nat)
    requires pos + len <= |data| && 1 <= distance <= pos
    requires forall i | pos <= i < pos + len :: Repeats(data, i, distance)
    ensures CopyMatch(data[..pos], distance, len) == data[..pos + len]
    decreases len
  {
    if len > 0 {
      assert Repeats(data, pos, distance);
      assert data[..pos] + [data[pos - distance]] == data[..pos + 1];
      CopyMatchRebuilds(data, pos + 1, distance, len - 1);
    }
  }

  /** A code the decoder reads as the distance, 0 being kept for a repeat of the last one. */
  ghost predicate Codes(code: nat, distance: nat, window: nat, ring: Ring) {
    && DecodeDistance(code, ring) == distance
    && (code == 0 <==> distance <= window && distance == ring.last)
  }

  function NextRing(ring: Ring, distance: nat, window: nat, code: nat): Ring {
    if distance <= window && code > 0 then ring.Push(distance) else ring
  }

  function MakeCommand(insertLen: nat, sr: SearchResult, code: nat): Command
    requires sr.len + sr.lenCodeDelta >= 0
  {
    Command(insertLen, sr.len, sr.len + sr.lenCodeDelta, code)
  }

  /** The decoder undoes one emitted command. */
  lemma {:induction false} StepRebuilds(data: seq<byte>, p: nat, insertLen: nat, sr: SearchResult, code: nat, ring: Ring,
                     limit: nat, dict: Dictionary, literals: seq<byte>)
    requires p + insertLen + sr.len <= |data|
    requires RealMatch(data, dict, p + insertLen, sr.len, Min(p + insertLen, limit), sr)
    requires Codes(code, sr.distance, Min(p + insertLen, limit), ring)
    ensures Step(Decoder(data[..p], ring, |literals|), MakeCommand(insertLen, sr, code),
                 literals + data[p..p + insertLen], limit, dict)
         == Some(Decoder(data[..p + insertLen + sr.len],
                         NextRing(ring, sr.distance, Min(p + insertLen, limit), code), |literals| + insertLen))
  {
    var pos := p + insertLen;
    assert data[..p] + (literals + data[p..pos])[|literals|..|literals| + insertLen] == data[..pos];
    if sr.distance <= Min(pos, limit) {
      CopyMatchRebuilds(data, pos, sr.distance, sr.len);
    } else {
      assert data[..pos] + data[pos..pos + sr.len] == data[..pos + sr.len];
    }
  }

  lemma {:induction false} PrefixCovered(cmds: seq<Command>, later: seq<Command>, n: nat)
    requires n <= |cmds|
    ensures Covered(cmds + later, n) == Covered(cmds, n) && Inserted(cmds + later, n) == Inserted(cmds, n)
    decreases n
  {
    if n > 0 { PrefixCovered(cmds, later, n - 1); }
  }

  lemma {:induction false} PrefixLiterals(data: seq<byte>, start: nat, cmds: seq<Command>, later: seq<Command>, n: nat)
    requires n <= |cmds| && start + Covered(cmds, n) <= |data|
    ensures Covered(cmds + later, n) == Covered(cmds, n)
    ensures Literals(data, start, cmds + later, n) == Literals(data, start, cmds, n)
    decreases n
  {
    PrefixCovered(cmds, later, n);
    if n > 0 {
      PrefixLiterals(data, start, cmds, later, n - 1);
      SameLiterals(data, start, cmds, cmds + later, n);
    }
  }

  lemma {:induction false} SameLiterals(data: seq<byte>, start: nat, a: seq<Command>, b: seq<Command>, n: nat)
    requires 0 < n <= |a| && n <= |b| && a[n - 1] == b[n - 1] && Covered(a, n - 1) == Covered(b, n - 1)
    requires start + Covered(a, n) <= |data| && Literals(data, start, a, n - 1) == Literals(data, start, b, n - 1)
    ensures Covered(a, n) == Covered(b, n) && Literals(data, start, a, n) == Literals(data, start, b, n)
  {
  }

  /** Commands added later do not disturb what a prefix replays to. */
  lemma {:induction false} ReplayPrefix(data: seq<byte>, start: nat, cmds: seq<Command>, later: seq<Command>, n: nat,
                     ring0: Ring, limit: nat, dict: Dictionary)
    requires n <= |cmds|
    requires Replay(data, start, cmds, n, ring0, limit, dict).Some?
    ensures Covered(cmds + later, n) == Covered(cmds, n)
    ensures Replay(data, start, cmds + later, n, ring0, limit, dict) == Replay(data, start, cmds, n, ring0, limit, dict)
  {
    PrefixLiterals(data, start, cmds, later, n);
    var literals := Literals(data, start, cmds, n);
    RunIgnoresRest(Decoder(data[..start], ring0, 0), cmds, n, literals, later, [], limit, dict);
    assert literals + [] == literals;
  }

  lemma {:induction false} RunOneMore(d: Decoder, d1: Decoder, d2: Decoder, cmds: seq<Command>, literals: seq<byte>, more: seq<byte>,
                   limit: nat, dict: Dictionary)
    requires |cmds| > 0 && d.used <= |literals|
    requires Run(d, cmds, |cmds| - 1, literals, limit, dict) == Some(d1)
    requires Step(d1, cmds[|cmds| - 1], literals + more, limit, dict) == Some(d2)
    ensures Run(d, cmds, |cmds|, literals + more, limit, dict) == Some(d2)
  {
    RunIgnoresRest(d, cmds, |cmds| - 1, literals, [], more, limit, dict);
    assert cmds + [] == cmds;
  }

  /** Each command the encoder appends is undone, and the two rings stay equal. */
  lemma {:induction false} RunRebuilds(data: seq<byte>, d: Decoder, cmds: seq<Command>, literals: seq<byte>, p: nat, insertLen: nat,
                    sr: SearchResult, code: nat, ring: Ring, limit: nat, dict: Dictionary, after: Decoder)
    requires p + insertLen + sr.len <= |data|
    requires RealMatch(data, dict, p + insertLen, sr.len, Min(p + insertLen, limit), sr)
    requires Codes(code, sr.distance, Min(p + insertLen, limit), ring)
    requires d.used <= |literals| && |cmds| > 0 && cmds[|cmds| - 1] == MakeCommand(insertLen, sr, code)
    requires Run(d, cmds, |cmds| - 1, literals, limit, dict) == Some(Decoder(data[..p], ring, |literals|))
    requires after == Decoder(data[..p + insertLen + sr.len],
                              NextRing(ring, sr.distance, Min(p + insertLen, limit), code), |literals| + insertLen)
    ensures Run(d, cmds, |cmds|, literals + data[p..p + insertLen], limit, dict) == Some(after)
  {
    StepRebuilds(data, p, insertLen, sr, code, ring, limit, dict, literals);
    RunOneMore(d, Decoder(data[..p], ring, |literals|), after, cmds, literals, data[p..p + insertLen], limit, dict);
  }

  lemma {:induction false} LastCovered(data: seq<byte>, start: nat, cmds: seq<Command>)
    requires |cmds| > 0 && start + Covered(cmds, |cmds|) <= |data|
    ensures var c, p := cmds[|cmds| - 1], start + Covered(cmds, |cmds| - 1);
      && start + Covered(cmds, |cmds|) == p + c.insertLen + c.copyLen
      && Literals(data, start, cmds, |cmds|) == Literals(data, start, cmds, |cmds| - 1) + data[p..p + c.insertLen]
  {
  }

  /** The last command of cmds is replayed after the others. */
  lemma {:induction false} ReplayLast(data: seq<byte>, start: nat, cmds: seq<Command>, c: Command, sr: SearchResult, p: nat,
                                      literals: seq<byte>, ring0: Ring, ring: Ring, next: Ring, limit: nat, dict: Dictionary)
    requires |cmds| > 0 && cmds[|cmds| - 1] == c && c.copyLen == sr.len
    requires p == start + Covered(cmds, |cmds| - 1) && p + c.insertLen + sr.len <= |data|
    requires literals == Literals(data, start, cmds, |cmds| - 1)
    requires Run(Decoder(data[..start], ring0, 0), cmds, |cmds| - 1, literals, limit, dict)
          == Some(Decoder(data[..p], ring, |literals|))
    requires RealMatch(data, dict, p + c.insertLen, sr.len, Min(p + c.insertLen, limit), sr)
    requires c == MakeCommand(c.insertLen, sr, c.distanceCode)
    requires Codes(c.distanceCode, sr.distance, Min(p + c.insertLen, limit), ring)
    requires next == NextRing(ring, sr.distance, Min(p + c.insertLen, limit), c.distanceCode)
    ensures Covered(cmds, |cmds|) == p + c.insertLen + c.copyLen - start
    ensures Replay(data, start, cmds, |cmds|, ring0, limit, dict) == Some(next)
  {
    var after := Decoder(data[..p + c.insertLen + sr.len], next, |literals| + c.insertLen);
    RunRebuilds(data, Decoder(data[..start], ring0, 0), cmds, literals, p, c.insertLen, sr, c.distanceCode, ring, limit, dict, after);
    ReplayIntro(data, start, cmds, literals, p, ring0, after, limit, dict);
  }

  /** What a replay that succeeds says about the run. */
  lemma {:induction false} ReplayElim(data: seq<byte>, start: nat, cmds: seq<Command>, n: nat, p: nat, ring0: Ring, ring: Ring,
                                      limit: nat, dict: Dictionary)
    returns (literals: seq<byte>)
    requires n <= |cmds| && p == start + Covered(cmds, n) <= |data|
    requires Replay(data, start, cmds, n, ring0, limit, dict) == Some(ring)
    ensures literals == Literals(data, start, cmds, n)
    ensures Run(Decoder(data[..start], ring0, 0), cmds, n, literals, limit, dict) == Some(Decoder(data[..p], ring, |literals|))
  {
    literals := Literals(data, start, cmds, n);
  }

  lemma {:induction false} ReplayIntro(data: seq<byte>, start: nat, cmds: seq<Command>, literals: seq<byte>, p: nat,
                    ring0: Ring, after: Decoder, limit: nat, dict: Dictionary)
    requires |cmds| > 0 && start + Covered(cmds, |cmds|) <= |data|
    requires p == start + Covered(cmds, |cmds| - 1) && literals == Literals(data, start, cmds, |cmds| - 1)
    requires var c := cmds[|cmds| - 1];
      && after.out == data[..p + c.insertLen + c.copyLen] && after.used == |literals| + c.insertLen
      && Run(Decoder(data[..start], ring0, 0), cmds, |cmds|, literals + data[p..p + c.insertLen], limit, dict) == Some(after)
    ensures Replay(data, start, cmds, |cmds|, ring0, limit, dict) == Some(after.ring)
  {
    LastCovered(data, start, cmds);
  }

  /** caches[k] is the distance cache after k commands, and each prefix replays to it. */
  ghost predicate Tracks(data: seq<byte>, start: nat, cmds: seq<Command>, ring0: Ring, caches: seq<Ring>,
                         limit: nat, dict: Dictionary)
  {
    && |caches| == |cmds| + 1
    && forall k {:trigger caches[k]} | 0 <= k <= |cmds| ::
         Replay(data, start, cmds, k, ring0, limit, dict) == Some(caches[k])
  }

  lemma {:induction false} TracksPrefix(data: seq<byte>, start: nat, cmds: seq<Command>, c: Command, ring0: Ring,
                                        caches: seq<Ring>, limit: nat, dict: Dictionary)
    requires Tracks(data, start, cmds, ring0, caches, limit, dict)
    ensures forall k {:trigger caches[k]} | 0 <= k <= |cmds| ::
      Replay(data, start, cmds + [c], k, ring0, limit, dict) == Some(caches[k])
  {
    forall k | 0 <= k <= |cmds|
      ensures Replay(data, start, cmds + [c], k, ring0, limit, dict) == Some(caches[k])
    {
      var _ := caches[k];
      ReplayPrefix(data, start, cmds, [c], k, ring0, limit, dict);
    }
  }

  lemma {:induction false} TracksIntro(data: seq<byte>, start: nat, cmds: seq<Command>, ring0: Ring, caches: seq<Ring>,
                                       next: Ring, limit: nat, dict: Dictionary)
    requires |caches| == |cmds|
    requires forall k {:trigger caches[k]} | 0 <= k < |cmds| ::
      Replay(data, start, cmds, k, ring0, limit, dict) == Some(caches[k])
    requires Replay(data, start, cmds, |cmds|, ring0, limit, dict) == Some(next)
    ensures Tracks(data, start, cmds, ring0, caches + [next], limit, dict)
  {
  }

  /** One more command: the decoder follows, and its ring is the encoder's. */
  lemma {:induction false} TracksMore(data: seq<byte>, start: nat, cmds: seq<Command>, ring0: Ring, caches: seq<Ring>,
                                      c: Command, sr: SearchResult, pos: nat, next: Ring, limit: nat, dict: Dictionary)
    requires Tracks(data, start, cmds, ring0, caches, limit, dict)
    requires pos == start + Covered(cmds, |cmds|) + c.insertLen && pos + sr.len <= |data|
    requires RealMatch(data, dict, pos, sr.len, Min(pos, limit), sr)
    requires Codes(c.distanceCode, sr.distance, Min(pos, limit), caches[|cmds|])
    requires c == MakeCommand(c.insertLen, sr, c.distanceCode)
    requires next == NextRing(caches[|cmds|], sr.distance, Min(pos, limit), c.distanceCode)
    ensures Covered(cmds + [c], |cmds| + 1) == pos + sr.len - start
    ensures Inserted(cmds + [c], |cmds| + 1) == Inserted(cmds, |cmds|) + c.insertLen
    ensures Tracks(data, start, cmds + [c], ring0, caches + [next], limit, dict)
  {
    var all := cmds + [c];
    PrefixCovered(cmds, [c], |cmds|);
    TracksPrefix(data, start, cmds, c, ring0, caches, limit, dict);
    ReplayNext(data, start, all, |cmds|, c, sr, pos - c.insertLen, ring0, caches[|cmds|], next, limit, dict);
    TracksIntro(data, start, all, ring0, caches, next, limit, dict);
  }

  lemma {:induction false} ReplayNext(data: seq<byte>, start: nat, cmds: seq<Command>, n: nat, c: Command, sr: SearchResult, p: nat,
                                      ring0: Ring, ring: Ring, next: Ring, limit: nat, dict: Dictionary)
    requires |cmds| == n + 1 && cmds[n] == c && p == start + Covered(cmds, n) && p + c.insertLen + sr.len <= |data|
    requires Replay(data, start, cmds, n, ring0, limit, dict) == Some(ring)
    requires RealMatch(data, dict, p + c.insertLen, sr.len, Min(p + c.insertLen, limit), sr)
    requires c == MakeCommand(c.insertLen, sr, c.distanceCode)
    requires Codes(c.distanceCode, sr.distance, Min(p + c.insertLen, limit), ring)
    requires next == NextRing(ring, sr.distance, Min(p + c.insertLen, limit), c.distanceCode)
    ensures Covered(cmds, n + 1) == p + c.insertLen + sr.len - start
    ensures Replay(data, start, cmds, |cmds|, ring0, limit, dict) == Some(next)
  {
    var literals := ReplayElim(data, start, cmds, n, p, ring0, ring, limit, dict);
    ReplayLast(data, start, cmds, c, sr, p, literals, ring0, ring, next, limit, dict);
  }

  /** With the pending literals that end the block, the decoder has the whole input. */
  lemma {:induction false} ReplayIsInput(data: seq<byte>, start: nat, cmds: seq<Command>, ring0: Ring, ring: Ring, pending: nat,
                      limit: nat, dict: Dictionary)
    requires start + Covered(cmds, |cmds|) + pending == |data|
    requires Replay(data, start, cmds, |cmds|, ring0, limit, dict) == Some(ring)
    ensures var tail := data[|data| - pending..];
      var d := Run(Decoder(data[..start], ring0, 0), cmds, |cmds|, Literals(data, start, cmds, |cmds|) + tail, limit, dict);
      d.Some? && d.value.out + tail == data && d.value.ring == ring
  {
    RunIgnoresRest(Decoder(data[..start], ring0, 0), cmds, |cmds|, Literals(data, start, cmds, |cmds|), [],
                   data[|data| - pending..], limit, dict);
    assert cmds + [] == cmds;
  }

  // ----- which commands there are -----

  /** The k-th command ends with the match sr at pos, coded against the cache of its time. */
  ghost predicate Copies(cmds: seq<Command>, k: nat, start: nat, caches: seq<Ring>, pos: nat, sr: SearchResult, limit: nat) {
    && k < |cmds| && k < |caches|
    && start + Covered(cmds, k) + cmds[k].insertLen == pos
    && cmds[k].copyLen == sr.len && cmds[k].copyLenCode == sr.len + sr.lenCodeDelta
    && Codes(cmds[k].distanceCode, sr.distance, Min(pos, limit), caches[k])
  }

  /** The i-th round's match, if it has one, is the next command. */
  ghost predicate Used(log: seq<Round>, i: nat, cmds: seq<Command>, start: nat, caches: seq<Ring>, limit: nat)
    requires i < |log|
  {
    log[i].found != [] ==> Copies(cmds, Hits(log, i), start, caches, log[i].MatchAt(), log[i].Match(), limit)
  }

  /** One command for each round with a match, in order, and no others. */
  ghost predicate Emits(log: seq<Round>, cmds: seq<Command>, start: nat, caches: seq<Ring>, limit: nat) {
    && |cmds| == Hits(log, |log|)
    && forall i | 0 <= i < |log| :: Used(log, i, cmds, start, caches, limit)
  }

  lemma {:induction false} CopiesStill(cmds: seq<Command>, k: nat, start: nat, caches: seq<Ring>, pos: nat, sr: SearchResult,
                                       limit: nat, c: Command, ring: Ring)
    requires Copies(cmds, k, start, caches, pos, sr, limit)
    ensures Copies(cmds + [c], k, start, caches + [ring], pos, sr, limit)
  {
    PrefixCovered(cmds, [c], k);
  }

  lemma {:induction false} EmitsMiss(log: seq<Round>, t: Round, cmds: seq<Command>, start: nat, caches: seq<Ring>, limit: nat)
    requires Emits(log, cmds, start, caches, limit) && t.found == []
    ensures Emits(log + [t], cmds, start, caches, limit)
  {
    var all := log + [t];
    HitsPrefix(log, t, |log|);
    forall i | 0 <= i < |all| ensures Used(all, i, cmds, start, caches, limit) {
      if i < |log| {
        HitsPrefix(log, t, i);
        assert Used(log, i, cmds, start, caches, limit);
      }
    }
  }

  lemma {:induction false} EmitsHit(log: seq<Round>, t: Round, cmds: seq<Command>, start: nat, caches: seq<Ring>, limit: nat,
                                    c: Command, ring: Ring)
    requires Emits(log, cmds, start, caches, limit) && t.found != [] && |caches| == |cmds| + 1
    requires Copies(cmds + [c], |cmds|, start, caches + [ring], t.MatchAt(), t.Match(), limit)
    ensures Emits(log + [t], cmds + [c], start, caches + [ring], limit)
  {
    var all := log + [t];
    HitsPrefix(log, t, |log|);
    forall i | 0 <= i < |all| ensures Used(all, i, cmds + [c], start, caches + [ring], limit) {
      HitsPrefix(log, t, i);
      if i < |log| && log[i].found != [] {
        assert Used(log, i, cmds, start, caches, limit);
        CopiesStill(cmds, Hits(log, i), start, caches, log[i].MatchAt(), log[i].Match(), limit, c, ring);
      }
    }
  }

  /** The next place to search, the number of the search, and where the sparse search sets in. */
  datatype Cursor = Cursor(pos: nat, call: nat, sparse: nat)

  /** Where a round leads, if it is what the hasher's answers make of it. */
  ghost function After(s: Searches, t: Round, sparse: nat): Option<Cursor> {
    if Hit(s, t) || Miss(s, t, sparse) then Some(Cursor(t.to, NextCall(s, t), SparseAfter(s, t, sparse))) else None
  }

  /** Where a log leads, if it is what the hasher's answers make of the block up to there and the
      commands are its matches. */
  ghost function Parse(s: Searches, log: seq<Round>, position: nat, cmds: seq<Command>, caches: seq<Ring>,
                       start: nat, limit: nat): Option<Cursor>
  {
    if Follows(s, log, position) && Emits(log, cmds, start, caches, limit)
    then Some(Cursor(FromAt(log, |log|, position), CallAt(s, log, |log|), SparseAt(s, log, |log|, position))) else None
  }

  /** A round adds the command of its match, or nothing. */
  ghost predicate Extends(t: Round, cmds: seq<Command>, caches: seq<Ring>, cmds': seq<Command>, caches': seq<Ring>,
                          start: nat, limit: nat)
  {
    if t.found == [] then cmds' == cmds && caches' == caches
    else
      && |cmds'| == |cmds| + 1 && cmds'[..|cmds|] == cmds && |caches'| == |caches| + 1 && caches'[..|caches|] == caches
      && Copies(cmds', |cmds|, start, caches', t.MatchAt(), t.Match(), limit)
  }

  lemma {:induction false} Started(s: Searches, data: seq<byte>, position: nat, ring: Ring, start: nat, limit: nat, dict: Dictionary)
    requires start <= |data|
    ensures Tracks(data, start, [], ring, [ring], limit, dict)
    ensures Parse(s, [], position, [], [ring], start, limit) == Some(Cursor(position, 0, position + s.params.Spree()))
  {
  }

  lemma {:induction false} ParseElim(b: Block, find: Query -> SearchResult, end: nat, params: Params, c: Cursor)
    requires Parse(Searches(find, end, params), b.log, b.from, b.commands, b.caches, b.start, params.maxBackwardLimit) == Some(c)
    requires !Searches(find, end, params).Room(c.pos)
    ensures Parsed(b, find, end, params)
  {
  }

  lemma {:induction false} ParseMore(s: Searches, log: seq<Round>, t: Round, position: nat, cmds: seq<Command>, caches: seq<Ring>,
                                     cmds': seq<Command>, caches': seq<Ring>, start: nat, limit: nat, c: Cursor, next: Cursor)
    requires Parse(s, log, position, cmds, caches, start, limit) == Some(c) && |caches| == |cmds| + 1
    requires s.Room(t.from) && t.from == c.pos && t.call == c.call && After(s, t, c.sparse) == Some(next)
    requires Extends(t, cmds, caches, cmds', caches', start, limit)
    ensures Parse(s, log + [t], position, cmds', caches', start, limit) == Some(next)
  {
    var all := log + [t];
    assert all[..|log|] == log[..|log|];
    SameBefore(s, all, log, |log|, position);
    FollowsMore(s, log, t, position);
    if t.found == [] {
      EmitsMiss(log, t, cmds, start, caches, limit);
    } else {
      assert cmds' == cmds + [cmds'[|cmds|]] && caches' == caches + [caches'[|caches|]];
      EmitsHit(log, t, cmds, start, caches, limit, cmds'[|cmds|], caches'[|caches|]);
    }
  }

  lemma {:induction false} ParseHit(s: Searches, log: seq<Round>, found: seq<SearchResult>, pos: nat, sr: SearchResult, position: nat,
                                    cmds: seq<Command>, caches: seq<Ring>, cmds': seq<Command>, caches': seq<Ring>, start: nat,
                                    limit: nat, c: Cursor, next: Cursor)
    returns (log': seq<Round>)
    requires Parse(s, log, position, cmds, caches, start, limit) == Some(c) && |caches| == |cmds| + 1 && s.Room(c.pos)
    requires Settled(s, c.pos, c.call, found) == Some(sr) && |found| > 0 && pos == c.pos + |found| - 1
    requires |cmds'| == |cmds| + 1 && cmds'[..|cmds|] == cmds && |caches'| == |caches| + 1 && caches'[..|caches|] == caches
    requires Copies(cmds', |cmds|, start, caches', pos, sr, limit)
    requires next.pos == pos + sr.len && next.sparse == pos + 2 * sr.len + s.params.Spree()
    requires next.call == NextCall(s, Round(c.pos, c.call, found, pos + sr.len))
    ensures Parse(s, log', position, cmds', caches', start, limit) == Some(next)
  {
    var t := Round(c.pos, c.call, found, pos + sr.len);
    assert Extends(t, cmds, caches, cmds', caches', start, limit);
    assert Hit(s, t);
    log' := log + [t];
    ParseMore(s, log, t, position, cmds, caches, cmds', caches', start, limit, c, next);
  }

  lemma {:induction false} ParseMiss(s: Searches, log: seq<Round>, position: nat, cmds: seq<Command>, caches: seq<Ring>,
                                     start: nat, limit: nat, c: Cursor, next: Cursor)
    returns (log': seq<Round>)
    requires Parse(s, log, position, cmds, caches, start, limit) == Some(c) && |caches| == |cmds| + 1 && s.Room(c.pos)
    requires s.Main(c.pos, c.call).score <= K_MIN_SCORE && Skips(s, c.pos + 1, c.sparse, next.pos)
    requires next.call == c.call + 1 && next.sparse == c.sparse
    ensures Parse(s, log', position, cmds, caches, start, limit) == Some(next)
  {
    var t := Round(c.pos, c.call, [], next.pos);
    assert Miss(s, t, c.sparse);
    log' := log + [t];
    ParseMore(s, log, t, position, cmds, caches, cmds, caches, start, limit, c, next);
  }

  /** Each main search above the minimum becomes a command, and no other does. Its copy begins at
      most four bytes later, where the hasher reported that length and distance, with a score that
      every byte of delay has raised. */
  lemma {:induction false} SearchUsed(s: Searches, log: seq<Round>, i: nat, position: nat, cmds: seq<Command>, start: nat,
                                      caches: seq<Ring>, limit: nat)
    returns (k: nat, at: nat, q: Query)
    requires Complete(s, log, position) && Emits(log, cmds, start, caches, limit) && i < |log|
    ensures log[i].from <= s.posEnd && k == Hits(log, i)
    ensures var first := s.Main(log[i].from, log[i].call);
      if first.score <= K_MIN_SCORE then
        && Hits(log, i + 1) == k && log[i].from < log[i].to <= log[i].from + 17
        && (log[i].from < position + (if s.params.quality < 9 then 64 else 512) ==> log[i].to == log[i].from + 1)
      else
        && Hits(log, i + 1) == k + 1 <= |cmds| && k < |caches|
        && log[i].from <= at <= log[i].from + 4 && at == start + Covered(cmds, k) + cmds[k].insertLen
        && q.position == at && s.find(q).score >= first.score + (at - log[i].from) * COST_DIFF_LAZY
        && cmds[k].copyLen == s.find(q).len && log[i].to == at + cmds[k].copyLen
        && DecodeDistance(cmds[k].distanceCode, caches[k]) == s.find(q).distance
  {
    var t := log[i];
    k, at, q := Hits(log, i), 0, Query(0, 0, 0, 0, 0);
    assert RoundAt(s, log, i, position) && Used(log, i, cmds, start, caches, limit);
    if t.found == [] {
      MissIsShort(s, t, SparseAt(s, log, i, position));
      SparseLater(s, log, i, position);
    } else {
      HitsGrow(log, i + 1, |log|);
      Gained(s, t.from, t.call, t.found, |t.found|);
      at := t.MatchAt();
      q := Asked(s, t);
    }
  }

  /** The query whose answer a match is. */
  lemma {:induction false} Asked(s: Searches, t: Round) returns (q: Query)
    requires Hit(s, t)
    ensures q.position == t.MatchAt() && s.find(q) == t.Match()
  {
    var n := |t.found| - 1;
    if n == 0 {
      q := Query(t.call, t.from, 0, s.posEnd - t.from, Min(t.from, s.params.maxBackwardLimit));
    } else {
      assert MovesOn(s, t.from, t.call, t.found, n);
      var maxLength := s.posEnd - (t.from + n - 1) - 1;
      q := Query(t.call + n, t.from + n - 1 + 1, s.BestLen(t.found[n - 1], maxLength), maxLength,
                 Min(t.from + n - 1 + 1, s.params.maxBackwardLimit));
    }
  }

  /** A call adds no command exactly when none of its main searches is above the minimum. */
  lemma {:induction false} NothingFound(s: Searches, log: seq<Round>, position: nat, cmds: seq<Command>, start: nat,
                                        caches: seq<Ring>, limit: nat)
    requires Complete(s, log, position) && Emits(log, cmds, start, caches, limit)
    ensures forall i | 0 <= i < |log| :: log[i].from <= s.posEnd
    ensures cmds == [] <==> forall i | 0 <= i < |log| :: s.Main(log[i].from, log[i].call).score <= K_MIN_SCORE
  {
    NoHits(log, |log|);
    forall i | 0 <= i < |log|
      ensures log[i].from <= s.posEnd && (log[i].found == [] <==> s.Main(log[i].from, log[i].call).score <= K_MIN_SCORE)
    {
      assert RoundAt(s, log, i, position);
    }
  }

  // ----- several blocks -----

  /** One call: the block begins at `from`, with the pending literals at `start`. */
  datatype Block = Block(from: nat, start: nat, commands: seq<Command>, caches: seq<Ring>, log: seq<Round>)

  /** Its searches are those the hasher's answers ask for, and its commands their matches. */
  ghost predicate Parsed(b: Block, find: Query -> SearchResult, end: nat, params: Params) {
    && Complete(Searches(find, end, params), b.log, b.from)
    && Emits(b.log, b.commands, b.start, b.caches, params.maxBackwardLimit)
  }

  ghost function CommandsOf(b: Block, find: Query -> SearchResult, from: nat, end: nat, params: Params): Option<seq<Command>> {
    if b.from == from && Parsed(b, find, end, params) then Some(b.commands) else None
  }

  /** The commands of the first n blocks, if each begins where the one before ended and is parsed. */
  ghost function Joined(blocks: seq<Block>, finds: seq<Query -> SearchResult>, position: nat, ends: seq<nat>, params: Params,
                        n: nat): Option<seq<Command>>
    requires n <= |blocks| && n <= |finds| && n <= |ends|
  {
    if n == 0 then Some([]) else
      var cmds, more := Joined(blocks, finds, position, ends, params, n - 1),
        CommandsOf(blocks[n - 1], finds[n - 1], if n == 1 then position else ends[n - 2], ends[n - 1], params);
      if cmds.Some? && more.Some? then Some(cmds.value + more.value) else None
  }

  lemma {:induction false} JoinedMore(blocks: seq<Block>, b: Block, finds: seq<Query -> SearchResult>, position: nat, ends: seq<nat>,
                                      params: Params, n: nat)
    requires n <= |blocks| && n <= |finds| && n <= |ends|
    ensures Joined(blocks + [b], finds, position, ends, params, n) == Joined(blocks, finds, position, ends, params, n)
    decreases n
  {
    if n > 0 { JoinedMore(blocks, b, finds, position, ends, params, n - 1); }
  }

  lemma {:induction false} JoinedNext(blocks: seq<Block>, b: Block, finds: seq<Query -> SearchResult>, position: nat, ends: seq<nat>,
                                      params: Params, cmds: seq<Command>, from: nat, n: nat)
    requires n == |blocks| < |finds| && n < |ends| && from == (if n == 0 then position else ends[n - 1])
    requires CommandsOf(b, finds[n], from, ends[n], params) == Some(b.commands)
    requires Joined(blocks, finds, position, ends, params, n) == Some(cmds)
    ensures Joined(blocks + [b], finds, position, ends, params, n + 1) == Some(cmds + b.commands)
  {
    JoinedMore(blocks, b, finds, position, ends, params, n);
  }

  lemma {:induction false} EachParsed(blocks: seq<Block>, finds: seq<Query -> SearchResult>, position: nat, ends: seq<nat>,
                                      params: Params, n: nat, i: nat)
    requires i < n <= |blocks| && n <= |finds| && n <= |ends| && Joined(blocks, finds, position, ends, params, n).Some?
    ensures blocks[i].from == (if i == 0 then position else ends[i - 1]) && Parsed(blocks[i], finds[i], ends[i], params)
    decreases n
  {
    if i < n - 1 { EachParsed(blocks, finds, position, ends, params, n - 1, i); }
  }

  /** cmds goes on with b from position m. */
  ghost predicate Continues(cmds: seq<Command>, m: nat, b: seq<Command>) {
    |cmds| == m + |b| && forall i | 0 <= i < |b| :: cmds[m + i] == b[i]
  }

  lemma {:induction false} RunConcat(d: Decoder, cmds: seq<Command>, m: nat, b: seq<Command>, k: nat, n: nat, literals: seq<byte>,
                                     d1: Decoder, limit: nat, dict: Dictionary)
    requires Continues(cmds, m, b) && k <= |b| && n == m + k && Run(d, cmds, m, literals, limit, dict) == Some(d1)
    ensures Run(d, cmds, n, literals, limit, dict) == Run(d1, b, k, literals, limit, dict)
    decreases k
  {
    if k > 0 {
      RunConcat(d, cmds, m, b, k - 1, n - 1, literals, d1, limit, dict);
      assert cmds[m + (k - 1)] == b[k - 1];
      SameStep(d, cmds, n, d1, b, k, literals, limit, dict);
    }
  }

  /** From the same state the same command leads to the same state. */
  lemma {:induction false} SameStep(d: Decoder, cmds: seq<Command>, n: nat, d1: Decoder, b: seq<Command>, k: nat, literals: seq<byte>,
                                    limit: nat, dict: Dictionary)
    requires 0 < n <= |cmds| && 0 < k <= |b| && cmds[n - 1] == b[k - 1]
    requires Run(d, cmds, n - 1, literals, limit, dict) == Run(d1, b, k - 1, literals, limit, dict)
    ensures Run(d, cmds, n, literals, limit, dict) == Run(d1, b, k, literals, limit, dict)
  {
  }

  lemma {:induction false} RunPrefix(d: Decoder, a: seq<Command>, b: seq<Command>, n: nat, literals: seq<byte>, limit: nat, dict: Dictionary)
    requires n <= |a|
    ensures Run(d, a + b, n, literals, limit, dict) == Run(d, a, n, literals, limit, dict)
    decreases n
  {
    if n > 0 { RunPrefix(d, a, b, n - 1, literals, limit, dict); }
  }

  function Shifted(d: Decoder, n: nat): Decoder { d.(used := d.used + n) }

  /** Literals in front of those a run takes move its place among them, and nothing else. */
  lemma {:induction false} RunShift(d: Decoder, cmds: seq<Command>, n: nat, before: seq<byte>, literals: seq<byte>, all: seq<byte>,
                                    r: Decoder, limit: nat, dict: Dictionary)
    requires n <= |cmds| && Run(d, cmds, n, literals, limit, dict) == Some(r) && all == before + literals
    ensures Run(Shifted(d, |before|), cmds, n, all, limit, dict) == Some(Shifted(r, |before|))
    decreases n
  {
    if n > 0 {
      var q := Run(d, cmds, n - 1, literals, limit, dict).value;
      RunShift(d, cmds, n - 1, before, literals, all, q, limit, dict);
      StepShift(q, cmds[n - 1], before, literals, limit, dict);
    }
  }

  lemma {:induction false} StepShift(d: Decoder, c: Command, before: seq<byte>, literals: seq<byte>, limit: nat, dict: Dictionary)
    requires Step(d, c, literals, limit, dict).Some?
    ensures Step(Shifted(d, |before|), c, before + literals, limit, dict)
         == Some(Shifted(Step(d, c, literals, limit, dict).value, |before|))
  {
    var lo, hi := d.used, d.used + c.insertLen;
    assert (before + literals)[|before| + lo..|before| + hi] == literals[lo..hi];
  }

  lemma {:induction false} CoveredConcat(cmds: seq<Command>, m: nat, b: seq<Command>, k: nat, n: nat)
    requires Continues(cmds, m, b) && k <= |b| && n == m + k
    ensures Covered(cmds, n) == Covered(cmds, m) + Covered(b, k)
    decreases k
  {
    if k > 0 {
      assert cmds[m + (k - 1)] == b[k - 1];
      CoveredConcat(cmds, m, b, k - 1, n - 1);
    }
  }

  lemma {:induction false} CoveredBoth(a: seq<Command>, b: seq<Command>)
    ensures Covered(a + b, |a + b|) == Covered(a, |a|) + Covered(b, |b|)
  {
    PrefixCovered(a, b, |a|);
    assert Continues(a + b, |a|, b);
    CoveredConcat(a + b, |a|, b, |b|, |a + b|);
  }

  lemma {:induction false} Associate(x: seq<byte>, y: seq<byte>, z: seq<byte>)
    ensures (x + y) + z == x + (y + z)
  {
  }

  lemma {:induction false} LiteralsConcat(data: seq<byte>, start: nat, cmds: seq<Command>, m: nat, b: seq<Command>, k: nat, n: nat,
                                          mid: nat, la: seq<byte>)
    requires Continues(cmds, m, b) && k <= |b| && n == m + k && mid == start + Covered(cmds, m) && mid + Covered(b, k) <= |data|
    requires la == Literals(data, start, cmds, m)
    ensures start + Covered(cmds, n) == mid + Covered(b, k)
    ensures Literals(data, start, cmds, n) == la + Literals(data, mid, b, k)
    decreases k
  {
    CoveredConcat(cmds, m, b, k, n);
    if k == 0 {
      assert la + [] == la;
    } else {
      assert cmds[m + (k - 1)] == b[k - 1];
      LiteralsConcat(data, start, cmds, m, b, k - 1, n - 1, mid, la);
      LiteralsStep(data, start, mid, b, k, cmds, n, la);
    }
  }

  lemma {:induction false} LiteralsStep(data: seq<byte>, start: nat, mid: nat, b: seq<Command>, k: nat, cmds: seq<Command>, n: nat,
                                        la: seq<byte>)
    requires 0 < k <= |b| && 0 < n <= |cmds| && cmds[n - 1] == b[k - 1]
    requires mid + Covered(b, k) <= |data| && start + Covered(cmds, n) <= |data|
    requires start + Covered(cmds, n - 1) == mid + Covered(b, k - 1)
    requires Literals(data, start, cmds, n - 1) == la + Literals(data, mid, b, k - 1)
    ensures Literals(data, start, cmds, n) == la + Literals(data, mid, b, k)
  {
    var p := mid + Covered(b, k - 1);
    var lx, ly, x := Literals(data, start, cmds, n - 1), Literals(data, mid, b, k - 1), data[p..p + b[k - 1].insertLen];
    Associate(la, ly, x);
    LiteralsLast(data, start, cmds, n, p, lx, x);
    LiteralsLast(data, mid, b, k, p, ly, x);
  }

  lemma {:induction false} LiteralsLast(data: seq<byte>, start: nat, cmds: seq<Command>, n: nat, p: nat, init: seq<byte>, x: seq<byte>)
    requires 0 < n <= |cmds| && start + Covered(cmds, n) <= |data| && p == start + Covered(cmds, n - 1)
    requires x == data[p..p + cmds[n - 1].insertLen] && init == Literals(data, start, cmds, n - 1)
    ensures Literals(data, start, cmds, n) == init + x
  {
  }

  /** More data behind a block does not matter to its replay. */
  lemma {:induction false} ReplayExtends(data: seq<byte>, more: seq<byte>, start: nat, cmds: seq<Command>, ring0: Ring, ring: Ring,
                                         limit: nat, dict: Dictionary)
    requires data <= more && Replay(data, start, cmds, |cmds|, ring0, limit, dict) == Some(ring)
    ensures Replay(more, start, cmds, |cmds|, ring0, limit, dict) == Some(ring)
  {
    LiteralsExtend(data, more, start, cmds, |cmds|);
    assert more[..start] == data[..start];
    assert more[..start + Covered(cmds, |cmds|)] == data[..start + Covered(cmds, |cmds|)];
  }

  lemma {:induction false} LiteralsExtend(data: seq<byte>, more: seq<byte>, start: nat, cmds: seq<Command>, n: nat)
    requires data <= more && n <= |cmds| && start + Covered(cmds, n) <= |data|
    ensures Literals(more, start, cmds, n) == Literals(data, start, cmds, n)
    decreases n
  {
    if n > 0 {
      LiteralsExtend(data, more, start, cmds, n - 1);
      var p := start + Covered(cmds, n - 1);
      assert more[p..p + cmds[n - 1].insertLen] == data[p..p + cmds[n - 1].insertLen];
    }
  }

  /** The commands of a block, then those of the next one, which begins where the first one's copies
      end: the decoder runs through both. */
  lemma {:induction false} ReplayConcat(data: seq<byte>, start: nat, mid: nat, a: seq<Command>, b: seq<Command>,
                                        ring0: Ring, ring1: Ring, ring2: Ring, limit: nat, dict: Dictionary)
    requires mid == start + Covered(a, |a|) && mid + Covered(b, |b|) <= |data|
    requires Replay(data, start, a, |a|, ring0, limit, dict) == Some(ring1)
    requires Replay(data, mid, b, |b|, ring1, limit, dict) == Some(ring2)
    ensures Replay(data, start, a + b, |a + b|, ring0, limit, dict) == Some(ring2)
  {
    var end := mid + Covered(b, |b|);
    var la := ReplayElim(data, start, a, |a|, mid, ring0, ring1, limit, dict);
    var lb := ReplayElim(data, mid, b, |b|, end, ring1, ring2, limit, dict);
    var d2 := Decoder(data[..end], ring2, |lb|);
    var d0, d1 := Decoder(data[..start], ring0, 0), Decoder(data[..mid], ring1, 0);
    var s1, s2 := Decoder(data[..mid], ring1, |la|), Decoder(data[..end], ring2, |la + lb|);
    var cmds, n, all := a + b, |a + b|, la + lb;
    assert Continues(cmds, |a|, b);
    PrefixLiterals(data, start, a, b, |a|);
    LiteralsConcat(data, start, cmds, |a|, b, |b|, n, mid, la);
    RunBoth(d0, d1, d2, a, b, la, lb, cmds, n, all, s1, s2, limit, dict);
    ReplayOf(data, start, cmds, n, all, end, ring0, s2, limit, dict);
  }

  lemma {:induction false} ReplayOf(data: seq<byte>, start: nat, cmds: seq<Command>, n: nat, literals: seq<byte>, end: nat,
                                    ring0: Ring, d: Decoder, limit: nat, dict: Dictionary)
    requires n == |cmds| && end == start + Covered(cmds, n) <= |data| && literals == Literals(data, start, cmds, n)
    requires Run(Decoder(data[..start], ring0, 0), cmds, n, literals, limit, dict) == Some(d)
    requires d.out == data[..end] && d.used == |literals|
    ensures Replay(data, start, cmds, |cmds|, ring0, limit, dict) == Some(d.ring)
  {
  }

  lemma {:induction false} RunBoth(d: Decoder, d1: Decoder, d2: Decoder, a: seq<Command>, b: seq<Command>, la: seq<byte>, lb: seq<byte>,
                                   cmds: seq<Command>, n: nat, all: seq<byte>, s1: Decoder, s2: Decoder, limit: nat, dict: Dictionary)
    requires d.used == 0 && cmds == a + b && n == |cmds| && all == la + lb && s1 == Shifted(d1, |la|) && s2 == Shifted(d2, |la|)
    requires Run(d, a, |a|, la, limit, dict) == Some(s1) && Run(d1, b, |b|, lb, limit, dict) == Some(d2)
    ensures Run(d, cmds, n, all, limit, dict) == Some(s2)
  {
    RunMoreLiterals(d, a, la, lb, limit, dict);
    RunShift(d1, b, |b|, la, lb, all, d2, limit, dict);
    RunPrefix(d, a, b, |a|, all, limit, dict);
    assert Continues(cmds, |a|, b);
    RunConcat(d, cmds, |a|, b, |b|, n, all, s1, limit, dict);
  }

  lemma {:induction false} RunMoreLiterals(d: Decoder, a: seq<Command>, la: seq<byte>, more: seq<byte>, limit: nat, dict: Dictionary)
    requires d.used == 0 && Run(d, a, |a|, la, limit, dict).Some?
    ensures Run(d, a, |a|, la + more, limit, dict) == Run(d, a, |a|, la, limit, dict)
  {
    assert a + [] == a;
    RunIgnoresRest(d, a, |a|, la, [], more, limit, dict);
  }

  // ----- the encoder -----

  class Encoder {
    var distCache: Ring
    var lastInsertLen: nat
    var commands: seq<Command>
    var numLiterals: nat

    /** The lazy search: while the match one byte further on scores enough higher, step to it. */
    static method LookAhead(position: nat, posEnd: nat, first: SearchResult, params: Params,
                            find: Query -> SearchResult, calls: nat)
      returns (pos: nat, sr: SearchResult, calls': nat, ghost found: seq<SearchResult>)
      requires position < posEnd && calls > 0
      requires first == Searches(find, posEnd, params).Main(position, calls - 1) && first.score > K_MIN_SCORE
      ensures position <= pos <= position + 4 && pos <= posEnd && sr.score >= first.score + (pos - position) * COST_DIFF_LAZY
      ensures Settled(Searches(find, posEnd, params), position, calls - 1, found) == Some(sr)
      ensures |found| > 0 && pos == position + |found| - 1
      ensures calls' == NextCall(Searches(find, posEnd, params), Round(position, calls - 1, found, pos + sr.len))
    {
      ghost var s := Searches(find, posEnd, params);
      pos, sr, calls', found := position, first, calls, [first];
      ClimbStarts(s, position, calls - 1);
      var delayed := 0;
      var maxLength := posEnd - position - 1;
      while true
        invariant 0 <= delayed < 4 && |found| == delayed + 1 && calls' == calls + delayed
        invariant pos == position + delayed < posEnd && maxLength == posEnd - pos - 1
        invariant delayed > 0 ==> s.Room(pos)
        invariant sr.score >= first.score + delayed * COST_DIFF_LAZY
        invariant ClimbTo(s, position, calls - 1, found) == Some(sr)
        decreases 4 - delayed
      {
        var bestLen := if params.quality >= MIN_QUALITY_FOR_EXTENSIVE_REFERENCE_SEARCH then 0
                       else if sr.len == 0 then maxLength else Min(sr.len - 1, maxLength);
        var sr2 := find(Query(calls', pos + 1, bestLen, maxLength, Min(pos + 1, params.maxBackwardLimit)));
        assert sr2 == s.Beyond(pos, calls', sr);
        calls' := calls' + 1;
        if sr2.score >= sr.score + COST_DIFF_LAZY {
          ClimbMore(s, position, calls - 1, found, sr, sr2);
          pos := pos + 1;
          sr := sr2;
          found := found + [sr2];
          delayed := delayed + 1;
          if delayed < 4 && pos + params.hashTypeLength < posEnd {
            maxLength := maxLength - 1;
            continue;
          }
        }
        break;
      }
      Settles(s, position, calls - 1, found, sr);
    }

    /** The skip over data that has not matched for long. */
    static method SkipAhead(position: nat, insertLength: nat, posEnd: nat, applyRandom: nat, params: Params,
                            ghost s: Searches)
      returns (pos: nat, insert: nat)
      requires params.Valid() && applyRandom >= params.Spree() && position <= posEnd
      requires s.posEnd == posEnd && s.params == params
      ensures position <= pos <= posEnd && insert - insertLength == pos - position
      ensures Skips(s, position, applyRandom, pos)
    {
      pos, insert := position, insertLength;
      if pos > applyRandom {
        var far := pos > applyRandom + 4 * params.Spree();
        var step, ahead := if far then 4 else 2, if far then 16 else 8;
        var margin := if params.storeLookahead - 1 > step then params.storeLookahead - 1 else step;
        var posJump := Min(pos + ahead, posEnd - margin);
        while pos < posJump
          invariant position <= pos <= posEnd && insert - insertLength == pos - position
          invariant (pos - position) % step == 0 && (pos == position || pos < posJump + step)
        {
          pos := pos + step;
          insert := insert + step;
        }
      }
    }

    /** Emits one command: the distance code, the ring, the literal count. */
    method Emit(pos: nat, insertLength: nat, sr: SearchResult, limit: nat)
      requires sr.len + sr.lenCodeDelta >= 0 && 1 <= sr.distance < MAX_DISTANCE
      requires distCache.Valid()
      modifies this`distCache, this`commands, this`numLiterals
      ensures distCache.Valid()
      ensures var code := ComputeDistanceCode(sr.distance, Min(pos, limit), old(distCache));
        && commands == old(commands) + [MakeCommand(insertLength, sr, code)]
        && Codes(code, sr.distance, Min(pos, limit), old(distCache))
        && distCache == NextRing(old(distCache), sr.distance, Min(pos, limit), code)
      ensures numLiterals == old(numLiterals) + insertLength
    {
      var window := Min(pos, limit);
      var code := ComputeDistanceCode(sr.distance, window, distCache);
      DistanceCodeInverts(sr.distance, window, distCache);
      if sr.distance <= window && code > 0 {
        distCache := distCache.Push(sr.distance);
      }
      commands := commands + [MakeCommand(insertLength, sr, code)];
      numLiterals := numLiterals + insertLength;
    }

    /** Emit, and the decoder follows. */
    method EmitTracked(ghost data: seq<byte>, ghost start: nat, ghost added0: seq<Command>, ghost ring0: Ring,
                       ghost caches0: seq<Ring>, pos: nat, insertLength: nat, sr: SearchResult, limit: nat, ghost dict: Dictionary)
      returns (ghost added: seq<Command>, ghost caches: seq<Ring>)
      requires pos == start + Covered(added0, |added0|) + insertLength && pos + sr.len <= |data|
      requires RealMatch(data, dict, pos, sr.len, Min(pos, limit), sr) && distCache.Valid()
      requires Tracks(data, start, added0, ring0, caches0, limit, dict) && caches0[|added0|] == distCache
      modifies this`distCache, this`commands, this`numLiterals
      ensures distCache.Valid() && |commands| == |old(commands)| + 1
      ensures added == added0 + [commands[|old(commands)|]] && caches == caches0 + [distCache]
      ensures commands == old(commands) + added[|added0|..]
      ensures Copies(added, |added0|, start, caches, pos, sr, limit)
      ensures Covered(added, |added|) == pos + sr.len - start
      ensures numLiterals - old(numLiterals) == Inserted(added, |added|) - Inserted(added0, |added0|)
      ensures Tracks(data, start, added, ring0, caches, limit, dict) && caches[|added|] == distCache
    {
      Emit(pos, insertLength, sr, limit);
      ghost var c := commands[|commands| - 1];
      TracksMore(data, start, added0, ring0, caches0, c, sr, pos, distCache, limit, dict);
      added := added0 + [c];
      caches := caches0 + [distCache];
      PrefixCovered(added0, [c], |added0|);
    }

    /** The match that was found, or a better one a little further on, becomes a command. */
    method TakeMatch(data: seq<byte>, ghost start: nat, ghost added0: seq<Command>, ghost ring0: Ring, ghost caches0: seq<Ring>,
                     pos0: nat, insert0: nat, posEnd: nat, first: SearchResult, calls0: nat, params: Params,
                     ghost dict: Dictionary, find: Query -> SearchResult)
      returns (pos: nat, sr: SearchResult, calls: nat, ghost added: seq<Command>, ghost caches: seq<Ring>, ghost found: seq<SearchResult>)
      requires GoodHasher(data, dict, find) && distCache.Valid() && pos0 < posEnd == |data| && calls0 > 0
      requires first == Searches(find, posEnd, params).Main(pos0, calls0 - 1) && first.score > K_MIN_SCORE
      requires start + Covered(added0, |added0|) + insert0 == pos0
      requires Tracks(data, start, added0, ring0, caches0, params.maxBackwardLimit, dict) && caches0[|added0|] == distCache
      modifies this`distCache, this`commands, this`numLiterals
      ensures distCache.Valid() && pos0 <= pos < pos + sr.len <= posEnd
      ensures |added| == |added0| + 1 && added[..|added0|] == added0 && commands == old(commands) + added[|added0|..]
      ensures |caches| == |caches0| + 1 && caches[..|caches0|] == caches0
      ensures Covered(added, |added|) == pos + sr.len - start
      ensures numLiterals - old(numLiterals) == Inserted(added, |added|) - Inserted(added0, |added0|)
      ensures Tracks(data, start, added, ring0, caches, params.maxBackwardLimit, dict) && caches[|added|] == distCache
      ensures Copies(added, |added0|, start, caches, pos, sr, params.maxBackwardLimit)
      ensures Settled(Searches(find, posEnd, params), pos0, calls0 - 1, found) == Some(sr)
      ensures |found| > 0 && pos == pos0 + |found| - 1
      ensures calls == NextCall(Searches(find, posEnd, params), Round(pos0, calls0 - 1, found, pos + sr.len))
    {
      pos, sr, calls, found := LookAhead(pos0, posEnd, first, params, find, calls0);
      Climbed(data, dict, Searches(find, posEnd, params), pos0, calls0 - 1, found, sr, pos);
      added, caches := EmitTracked(data, start, added0, ring0, caches0, pos, insert0 + (pos - pos0), sr, params.maxBackwardLimit, dict);
    }

    /** One turn of the main loop, and its entry in the log: a match and its command, or a step over
        unmatched data. */
    method Turn(data: seq<byte>, ghost start: nat, ghost position: nat, ghost added0: seq<Command>, ghost ring0: Ring,
                ghost caches0: seq<Ring>, ghost log0: seq<Round>, pos0: nat, insert0: nat, posEnd: nat, random0: nat,
                calls0: nat, params: Params, ghost dict: Dictionary, find: Query -> SearchResult)
      returns (ghost added: seq<Command>, ghost caches: seq<Ring>, ghost log: seq<Round>,
               pos: nat, insertLength: nat, applyRandom: nat, calls: nat)
      requires params.Valid() && GoodHasher(data, dict, find) && distCache.Valid()
      requires pos0 + params.hashTypeLength < posEnd == |data| && insert0 <= pos0 && random0 >= params.Spree()
      requires start + Covered(added0, |added0|) + insert0 == pos0
      requires Tracks(data, start, added0, ring0, caches0, params.maxBackwardLimit, dict) && caches0[|added0|] == distCache
      requires Parse(Searches(find, posEnd, params), log0, position, added0, caches0, start, params.maxBackwardLimit)
        == Some(Cursor(pos0, calls0, random0))
      modifies this`distCache, this`commands, this`numLiterals
      ensures distCache.Valid() && pos0 < pos <= posEnd && insertLength <= pos && applyRandom >= params.Spree()
      ensures |added| >= |added0| && added[..|added0|] == added0 && commands == old(commands) + added[|added0|..]
      ensures start + Covered(added, |added|) + insertLength == pos
      ensures numLiterals - old(numLiterals) == Inserted(added, |added|) - Inserted(added0, |added0|)
      ensures Tracks(data, start, added, ring0, caches, params.maxBackwardLimit, dict) && caches[|added|] == distCache
      ensures Parse(Searches(find, posEnd, params), log, position, added, caches, start, params.maxBackwardLimit)
        == Some(Cursor(pos, calls, applyRandom))
    {
      ghost var s, c := Searches(find, posEnd, params), Cursor(pos0, calls0, random0);
      pos, insertLength, applyRandom, calls, added, caches := pos0, insert0, random0, calls0 + 1, added0, caches0;
      var limit := params.maxBackwardLimit;
      var sr := find(Query(calls0, pos, 0, posEnd - pos, Min(pos, limit)));
      if sr.score > K_MIN_SCORE {
        ghost var found, at;
        pos, sr, calls, added, caches, found := TakeMatch(data, start, added0, ring0, caches0, pos, insert0, posEnd, sr, calls, params, dict, find);
        applyRandom := pos + 2 * sr.len + params.Spree();
        insertLength := 0;
        at, pos := pos, pos + sr.len;
        log := ParseHit(s, log0, found, at, sr, position, added0, caches0, added, caches, start, limit, c, Cursor(pos, calls, applyRandom));
      } else {
        pos, insertLength := pos + 1, insertLength + 1;
        pos, insertLength := SkipAhead(pos, insertLength, posEnd, applyRandom, params, s);
        assert added0[|added0|..] == [];
        log := ParseMiss(s, log0, position, added0, caches0, start, limit, c, Cursor(pos, calls, applyRandom));
      }
    }

    /** Every run of the match finder is undone by the decoder, command by command: caches[k]
        is the encoder's distance cache after k commands. */
    method CreateBackwardReferences(data: seq<byte>, position: nat, numBytes: nat, params: Params,
                                    ghost dict: Dictionary, find: Query -> SearchResult)
      returns (ghost b: Block)
      requires params.Valid() && GoodHasher(data, dict, find)
      requires lastInsertLen <= position && position + numBytes == |data| < MAX_DISTANCE
      requires distCache.Valid()
      modifies this
      ensures distCache.Valid()
      ensures |commands| >= |old(commands)| && commands[..|old(commands)|] == old(commands)
      ensures var added := commands[|old(commands)|..];
        && Covered(added, |added|) + lastInsertLen == old(lastInsertLen) + numBytes
        && numLiterals == old(numLiterals) + Inserted(added, |added|)
        && b.commands == added && b.start == position - old(lastInsertLen) && b.from == position
        && Tracks(data, b.start, added, old(distCache), b.caches, params.maxBackwardLimit, dict)
        && b.caches[|added|] == distCache
      ensures Parsed(b, find, |data|, params)
    {
      ghost var start, ring0 := position - lastInsertLen, distCache;
      var pos, insertLength;
      ghost var added, caches, log, c;
      pos, insertLength, added, caches, log, c := MainLoop(data, start, position, lastInsertLen, params, dict, find);
      lastInsertLen := insertLength + (|data| - pos);
      assert commands[|old(commands)|..] == added;
      b := Block(position, start, added, caches, log);
      ParseElim(b, find, |data|, params, c);
    }

    /** The loop over the block, up to where too little is left to search. */
    method MainLoop(data: seq<byte>, ghost start: nat, position: nat, insert0: nat, params: Params,
                    ghost dict: Dictionary, find: Query -> SearchResult)
      returns (pos: nat, insertLength: nat, ghost added: seq<Command>, ghost caches: seq<Ring>, ghost log: seq<Round>,
               ghost c: Cursor)
      requires params.Valid() && GoodHasher(data, dict, find) && distCache.Valid()
      requires insert0 <= position <= |data| < MAX_DISTANCE && start + insert0 == position
      modifies this`distCache, this`commands, this`numLiterals
      ensures distCache.Valid() && pos <= |data| && commands == old(commands) + added
      ensures start + Covered(added, |added|) + insertLength == pos
      ensures numLiterals == old(numLiterals) + Inserted(added, |added|)
      ensures Tracks(data, start, added, old(distCache), caches, params.maxBackwardLimit, dict) && caches[|added|] == distCache
      ensures Parse(Searches(find, |data|, params), log, position, added, caches, start, params.maxBackwardLimit) == Some(c)
      ensures !Searches(find, |data|, params).Room(c.pos)
    {
      var limit := params.maxBackwardLimit;
      ghost var ring0, s := distCache, Searches(find, |data|, params);
      added, caches, log := [], [distCache], [];
      var posEnd: nat := |data|;
      pos, insertLength := position, insert0;
      var applyRandom := position + params.Spree();
      var calls := 0;
      Started(s, data, position, ring0, start, limit, dict);
      while pos + params.hashTypeLength < posEnd
        invariant position <= pos <= posEnd && insertLength <= pos && applyRandom >= params.Spree()
        invariant distCache.Valid()
        invariant commands == old(commands) + added
        invariant start + Covered(added, |added|) + insertLength == pos
        invariant numLiterals == old(numLiterals) + Inserted(added, |added|)
        invariant Tracks(data, start, added, ring0, caches, limit, dict) && caches[|added|] == distCache
        invariant Parse(s, log, position, added, caches, start, limit) == Some(Cursor(pos, calls, applyRandom))
        decreases posEnd - pos
      {
        added, caches, log, pos, insertLength, applyRandom, calls :=
          Turn(data, start, position, added, ring0, caches, log, pos, insertLength, posEnd, applyRandom, calls, params, dict, find);
      }
      c := Cursor(pos, calls, applyRandom);
    }
  }

  /** One call per block, each with its own hasher, the pending literals handed on. Whatever the
      blocks, replaying all commands and then the pending literals gives all of the data. */
  method EncodeBlocks(e: Encoder, data: seq<byte>, position: nat, ends: seq<nat>, params: Params,
                      ghost dict: Dictionary, finds: seq<Query -> SearchResult>)
    returns (ghost start: nat, ghost added: seq<Command>, ghost blocks: seq<Block>)
    requires params.Valid() && e.distCache.Valid() && e.lastInsertLen <= position <= |data| < MAX_DISTANCE
    requires |finds| == |ends| > 0 && ends[|ends| - 1] == |data| && position <= ends[0]
    requires forall i, j | 0 <= i < j < |ends| :: ends[i] <= ends[j]
    requires forall i | 0 <= i < |ends| :: ends[i] <= |data| && GoodHasher(data[..ends[i]], dict, finds[i])
    modifies e
    ensures start == position - old(e.lastInsertLen) && e.commands == old(e.commands) + added
    ensures start + Covered(added, |added|) + e.lastInsertLen == |data|
    ensures Replay(data, start, added, |added|, old(e.distCache), params.maxBackwardLimit, dict) == Some(e.distCache)
    ensures var tail := data[|data| - e.lastInsertLen..];
      var d := Run(Decoder(data[..start], old(e.distCache), 0), added, |added|, Literals(data, start, added, |added|) + tail,
                   params.maxBackwardLimit, dict);
      d.Some? && d.value.out + tail == data && d.value.ring == e.distCache
    ensures |blocks| == |ends| && Joined(blocks, finds, position, ends, params, |ends|) == Some(added)
  {
    ghost var limit, ring0, before := params.maxBackwardLimit, e.distCache, e.commands;
    start, added, blocks := position - e.lastInsertLen, [], [];
    var from := position;
    for i := 0 to |ends|
      invariant position <= from <= |data| && (i < |ends| ==> from <= ends[i]) && from == (if i == 0 then position else ends[i - 1])
      invariant e.distCache.Valid() && e.commands == before + added
      invariant start + Covered(added, |added|) + e.lastInsertLen == from
      invariant Replay(data, start, added, |added|, ring0, limit, dict) == Some(e.distCache)
      invariant |blocks| == i && Joined(blocks, finds, position, ends, params, i) == Some(added)
    {
      added, blocks := NextBlock(e, data, start, before, added, blocks, ring0, position, from, ends, params, dict, finds, i);
      from := ends[i];
    }
    ReplayIsInput(data, start, added, ring0, e.distCache, e.lastInsertLen, limit, dict);
  }

  method NextBlock(e: Encoder, data: seq<byte>, ghost start: nat, ghost before: seq<Command>, ghost added0: seq<Command>,
                   ghost blocks0: seq<Block>, ghost ring0: Ring, ghost position: nat, from: nat, ends: seq<nat>, params: Params, ghost dict: Dictionary,
                   finds: seq<Query -> SearchResult>, i: nat)
    returns (ghost added: seq<Command>, ghost blocks: seq<Block>)
    requires params.Valid() && e.distCache.Valid() && i == |blocks0| < |ends| == |finds| && from <= ends[i] <= |data| < MAX_DISTANCE
    requires e.commands == before + added0
    requires from == (if i == 0 then position else ends[i - 1]) && start + Covered(added0, |added0|) + e.lastInsertLen == from
    requires GoodHasher(data[..ends[i]], dict, finds[i])
    requires Replay(data, start, added0, |added0|, ring0, params.maxBackwardLimit, dict) == Some(e.distCache)
    requires Joined(blocks0, finds, position, ends, params, i) == Some(added0)
    modifies e
    ensures e.distCache.Valid() && e.commands == before + added
    ensures start + Covered(added, |added|) + e.lastInsertLen == ends[i]
    ensures Replay(data, start, added, |added|, ring0, params.maxBackwardLimit, dict) == Some(e.distCache)
    ensures |blocks| == i + 1 && Joined(blocks, finds, position, ends, params, i + 1) == Some(added)
  {
    ghost var b;
    added, b := EncodeBlock(e, data, start, added0, ring0, from, ends[i], params, dict, finds[i]);
    JoinedNext(blocks0, b, finds, position, ends, params, added0, from, i);
    blocks := blocks0 + [b];
  }

  method EncodeBlock(e: Encoder, data: seq<byte>, ghost start: nat, ghost added0: seq<Command>, ghost ring0: Ring,
                     from: nat, end: nat, params: Params, ghost dict: Dictionary, find: Query -> SearchResult)
    returns (ghost added: seq<Command>, ghost b: Block)
    requires params.Valid() && e.distCache.Valid() && from <= end <= |data| < MAX_DISTANCE
    requires GoodHasher(data[..end], dict, find) && start + Covered(added0, |added0|) + e.lastInsertLen == from
    requires Replay(data, start, added0, |added0|, ring0, params.maxBackwardLimit, dict) == Some(e.distCache)
    modifies e
    ensures e.distCache.Valid() && added == added0 + b.commands && e.commands == old(e.commands) + b.commands
    ensures start + Covered(added, |added|) + e.lastInsertLen == end
    ensures Replay(data, start, added, |added|, ring0, params.maxBackwardLimit, dict) == Some(e.distCache)
    ensures b.start == from - old(e.lastInsertLen) && CommandsOf(b, find, from, end, params) == Some(b.commands)
  {
    ghost var limit, mid, ring1, before := params.maxBackwardLimit, from - e.lastInsertLen, e.distCache, e.commands;
    b := e.CreateBackwardReferences(data[..end], from, end - from, params, dict, find);
    ghost var next := b.commands;
    assert Replay(data[..end], mid, next, |next|, ring1, limit, dict) == Some(b.caches[|next|]);
    ReplayExtends(data[..end], data, mid, next, ring1, e.distCache, limit, dict);
    CoveredBoth(added0, next);
    ReplayConcat(data, start, mid, added0, next, ring0, ring1, e.distCache, limit, dict);
    added := added0 + next;
  }
}
