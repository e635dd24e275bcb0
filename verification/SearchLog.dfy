/**
  The searches of one call of Brotli's match finder (internal/compress/brotli/backward_references.go):
  which ones are made, in which order, and what becomes of each result. Nothing here emits anything;
  the log of a call is determined by what the hasher answers.
*/
module SearchLog {
  const K_MIN_SCORE := 30 * 8 * 8 + 100
  const COST_DIFF_LAZY := 175
  const MIN_QUALITY_FOR_EXTENSIVE_REFERENCE_SEARCH := 5

  function Min(a: nat, b: nat): nat { if a <= b then a else b }

  datatype SearchResult = SearchResult(len: nat, distance: nat, score: nat, lenCodeDelta: int)

  /** `call` numbers the searches, so that a hasher with state is a function of its queries. */
  datatype Query = Query(call: nat, position: nat, bestLen: nat, maxLength: nat, maxDistance: nat)

  datatype Params = Params(maxBackwardLimit: nat, quality: nat, hashTypeLength: nat, storeLookahead: nat) {
    /** literalSpreeLengthForSparseSearch. */
    function Spree(): nat { if quality < 9 then 64 else 512 }
    predicate Valid() { 1 <= storeLookahead <= 64 }
  }

  /** The hasher, the end of the block and the settings. */
  datatype Searches = Searches(find: Query -> SearchResult, posEnd: nat, params: Params) {
    function Main(pos: nat, call: nat): SearchResult
      requires pos <= posEnd
    {
      find(Query(call, pos, 0, posEnd - pos, Min(pos, params.maxBackwardLimit)))
    }

    /** The search one position beyond a match at pos. */
    function Beyond(pos: nat, call: nat, sr: SearchResult): SearchResult
      requires pos < posEnd
    {
      var maxLength := posEnd - pos - 1;
      find(Query(call, pos + 1, BestLen(sr, maxLength), maxLength, Min(pos + 1, params.maxBackwardLimit)))
    }

    /** The length to beat. One less than nothing is the largest number there is. */
    function BestLen(sr: SearchResult, maxLength: nat): nat {
      if params.quality < MIN_QUALITY_FOR_EXTENSIVE_REFERENCE_SEARCH && sr.len > 0 then Min(sr.len - 1, maxLength)
      else if params.quality < MIN_QUALITY_FOR_EXTENSIVE_REFERENCE_SEARCH then maxLength
      else 0
    }

    /** Enough data is left to search at pos. */
    predicate Room(pos: nat) { pos + params.hashTypeLength < posEnd }
  }

  /** One round of the main loop. `found` is empty if the main search at `from` was not good enough;
      otherwise it holds that result and those of the lazy searches the round moved on to, one
      position further each. The next round begins at `to`. */
  datatype Round = Round(from: nat, call: nat, found: seq<SearchResult>, to: nat) {
    function Match(): SearchResult
      requires found != []
    {
      found[|found| - 1]
    }

    /** Where the match begins that is used. */
    function MatchAt(): nat
      requires found != []
    {
      from + |found| - 1
    }
  }

  // ----- a round with a match -----

  /** From a main search above the minimum, each move gained enough, and there was room for each
      search after the first lazy one. */
  ghost predicate Climbs(s: Searches, from: nat, call: nat, found: seq<SearchResult>) {
    && 1 <= |found| <= 5 && from + |found| - 1 <= s.posEnd && from < s.posEnd
    && found[0] == s.Main(from, call) && found[0].score > K_MIN_SCORE
    && forall i | 1 <= i < |found| :: MovesOn(s, from, call, found, i)
  }

  /** The i-th move: the search one further, and its gain. */
  predicate MovesOn(s: Searches, from: nat, call: nat, found: seq<SearchResult>, i: nat)
    requires 1 <= i < |found| && from + i - 1 < s.posEnd
  {
    && found[i] == s.Beyond(from + i - 1, call + i, found[i - 1])
    && found[i].score >= found[i - 1].score + COST_DIFF_LAZY
    && (i > 1 ==> s.Room(from + i - 1))
  }

  lemma {:induction false} ClimbsMore(s: Searches, from: nat, call: nat, found: seq<SearchResult>, next: SearchResult)
    requires Climbs(s, from, call, found) && |found| < 5 && from + |found| <= s.posEnd
    requires next == s.Beyond(from + |found| - 1, call + |found|, found[|found| - 1])
    requires next.score >= found[|found| - 1].score + COST_DIFF_LAZY
    requires |found| > 1 ==> s.Room(from + |found| - 1)
    ensures Climbs(s, from, call, found + [next])
  {
    var all := found + [next];
    forall i | 1 <= i < |all| ensures MovesOn(s, from, call, all, i) {
      if i < |found| { assert MovesOn(s, from, call, found, i); }
    }
  }

  lemma {:induction false} Gained(s: Searches, from: nat, call: nat, found: seq<SearchResult>, n: nat)
    requires Climbs(s, from, call, found) && 1 <= n <= |found|
    ensures found[n - 1].score >= found[0].score + (n - 1) * COST_DIFF_LAZY
    decreases n
  {
    if n > 1 {
      Gained(s, from, call, found, n - 1);
      assert MovesOn(s, from, call, found, n - 1);
    }
  }

  /** No further search is made: four moves, or a move to where too little is left. */
  predicate Spent(s: Searches, from: nat, found: seq<SearchResult>) {
    |found| == 5 || (|found| > 1 && !s.Room(from + |found| - 1))
  }

  /** It stopped because no search was left to make, or because the last one gained too little. */
  ghost predicate Stops(s: Searches, from: nat, call: nat, found: seq<SearchResult>)
    requires Climbs(s, from, call, found)
  {
    var last := found[|found| - 1];
    Spent(s, from, found)
    || s.Beyond(from + |found| - 1, call + |found|, last).score < last.score + COST_DIFF_LAZY
  }

  ghost predicate Hit(s: Searches, t: Round) {
    Climbs(s, t.from, t.call, t.found) && Stops(s, t.from, t.call, t.found) && t.to == t.MatchAt() + t.Match().len
  }

  // ----- a round without -----

  /** The first of pos, pos + step, … that is at least goal. */
  predicate FirstAtLeast(pos: nat, step: nat, goal: int, x: nat)
    requires step > 0
  {
    pos <= x && (x - pos) % step == 0 && goal <= x && (x == pos || x < goal + step)
  }

  /** How far the sparse search skips from pos, when `sparse` is where it sets in: not at all up to
      there; then by twos, up to 8 bytes; by fours, up to 16 bytes, after four more sprees. */
  predicate Skips(s: Searches, pos: nat, sparse: nat, x: nat) {
    if pos <= sparse then x == pos
    else if pos <= sparse + 4 * s.params.Spree() then FirstAtLeast(pos, 2, Goal(s, pos, 2, 8), x)
    else FirstAtLeast(pos, 4, Goal(s, pos, 4, 16), x)
  }

  function Goal(s: Searches, pos: nat, step: nat, ahead: nat): int {
    var limit := s.posEnd - (if s.params.storeLookahead > step + 1 then s.params.storeLookahead - 1 else step);
    if pos + ahead <= limit then pos + ahead else limit
  }

  ghost predicate Miss(s: Searches, t: Round, sparse: nat) {
    && t.found == [] && t.from < s.posEnd && s.Main(t.from, t.call).score <= K_MIN_SCORE
    && Skips(s, t.from + 1, sparse, t.to)
  }

  /** A round without a match passes over 17 bytes at most, and over one unless the last match is
      more than a spree back. */
  lemma {:induction false} MissIsShort(s: Searches, t: Round, sparse: nat)
    requires Miss(s, t, sparse)
    ensures t.from < t.to <= t.from + 17 && (t.from < sparse ==> t.to == t.from + 1)
  {
    FirstIsNear(t.from + 1, 2, 4, Goal(s, t.from + 1, 2, 8), t.to);
    FirstIsNear(t.from + 1, 4, 4, Goal(s, t.from + 1, 4, 16), t.to);
  }

  lemma {:induction false} FirstIsNear(pos: nat, step: nat, n: nat, goal: int, x: nat)
    requires step == 2 || step == 4
    requires goal <= pos + n * step
    ensures FirstAtLeast(pos, step, goal, x) ==> x <= pos + n * step
  {
    if FirstAtLeast(pos, step, goal, x) {
      var k := (x - pos) / step;
      assert x - pos == k * step;
    }
  }

  // ----- the log of a call -----

  /** The number of the search after the round's own. */
  function NextCall(s: Searches, t: Round): nat {
    t.call + |t.found| + (if t.found != [] && Spent(s, t.from, t.found) then 0 else 1)
  }

  /** Where the sparse search sets in after a round. */
  function SparseAfter(s: Searches, t: Round, sparse: nat): nat {
    if t.found == [] then sparse else t.MatchAt() + 2 * t.Match().len + s.params.Spree()
  }

  function SparseAt(s: Searches, log: seq<Round>, n: nat, position: nat): nat
    requires n <= |log|
  {
    if n == 0 then position + s.params.Spree() else SparseAfter(s, log[n - 1], SparseAt(s, log, n - 1, position))
  }

  function FromAt(log: seq<Round>, n: nat, position: nat): nat
    requires n <= |log|
  {
    if n == 0 then position else log[n - 1].to
  }

  function CallAt(s: Searches, log: seq<Round>, n: nat): nat
    requires n <= |log|
  {
    if n == 0 then 0 else NextCall(s, log[n - 1])
  }

  ghost predicate RoundAt(s: Searches, log: seq<Round>, i: nat, position: nat)
    requires i < |log|
  {
    && log[i].from == FromAt(log, i, position) && log[i].call == CallAt(s, log, i) && s.Room(log[i].from)
    && (Hit(s, log[i]) || Miss(s, log[i], SparseAt(s, log, i, position)))
  }

  ghost predicate Follows(s: Searches, log: seq<Round>, position: nat) {
    forall i | 0 <= i < |log| :: RoundAt(s, log, i, position)
  }

  /** All rounds of a call, up to where too little is left to search. */
  ghost predicate Complete(s: Searches, log: seq<Round>, position: nat) {
    Follows(s, log, position) && !s.Room(FromAt(log, |log|, position))
  }

  /** The sparse search does not set in before a spree from the start of the block. */
  lemma {:induction false} SparseLater(s: Searches, log: seq<Round>, n: nat, position: nat)
    requires Follows(s, log, position) && n <= |log|
    ensures SparseAt(s, log, n, position) >= position + s.params.Spree() && FromAt(log, n, position) >= position
    decreases n
  {
    if n > 0 {
      SparseLater(s, log, n - 1, position);
      assert RoundAt(s, log, n - 1, position);
      if Miss(s, log[n - 1], SparseAt(s, log, n - 1, position)) { MissIsShort(s, log[n - 1], SparseAt(s, log, n - 1, position)); }
    }
  }

  /** The rounds with a match among the first n. */
  function Hits(log: seq<Round>, n: nat): nat
    requires n <= |log|
  {
    if n == 0 then 0 else Hits(log, n - 1) + (if log[n - 1].found == [] then 0 else 1)
  }

  lemma {:induction false} SameBefore(s: Searches, a: seq<Round>, b: seq<Round>, n: nat, position: nat)
    requires n <= |a| && n <= |b| && a[..n] == b[..n]
    ensures SparseAt(s, a, n, position) == SparseAt(s, b, n, position)
    ensures Hits(a, n) == Hits(b, n) && FromAt(a, n, position) == FromAt(b, n, position) && CallAt(s, a, n) == CallAt(s, b, n)
    decreases n
  {
    if n > 0 {
      assert a[..n][n - 1] == b[..n][n - 1];
      assert a[..n - 1] == a[..n][..n - 1] && b[..n - 1] == b[..n][..n - 1];
      SameBefore(s, a, b, n - 1, position);
    }
  }

  lemma {:induction false} FollowsMore(s: Searches, log: seq<Round>, t: Round, position: nat)
    requires Follows(s, log, position) && s.Room(t.from)
    requires t.from == FromAt(log, |log|, position) && t.call == CallAt(s, log, |log|)
    requires Hit(s, t) || Miss(s, t, SparseAt(s, log, |log|, position))
    ensures Follows(s, log + [t], position)
  {
    var all := log + [t];
    forall i | 0 <= i < |all| ensures RoundAt(s, all, i, position) {
      assert log[..i] == all[..i];
      SameBefore(s, log, all, i, position);
      if i < |log| { assert RoundAt(s, log, i, position); }
    }
  }

  // ----- the hasher's answers determine the log -----

  lemma {:induction false} FirstUnique(pos: nat, step: nat, goal: int, x: nat, y: nat)
    requires (step == 2 || step == 4) && FirstAtLeast(pos, step, goal, x) && FirstAtLeast(pos, step, goal, y)
    ensures x == y
  {
    var j, k := (x - pos) / step, (y - pos) / step;
    assert x - pos == j * step && y - pos == k * step;
  }

  lemma {:induction false} ClimbsAgree(s: Searches, from: nat, call: nat, a: seq<SearchResult>, b: seq<SearchResult>, n: nat)
    requires Climbs(s, from, call, a) && Climbs(s, from, call, b) && n <= |a| && n <= |b|
    ensures a[..n] == b[..n] && (n > 0 ==> a[n - 1] == b[n - 1])
    decreases n
  {
    if n > 0 {
      ClimbsAgree(s, from, call, a, b, n - 1);
      if n > 1 {
        assert MovesOn(s, from, call, a, n - 1) && MovesOn(s, from, call, b, n - 1);
      }
      assert a[n - 1] == b[n - 1];
      assert a[..n] == a[..n - 1] + [a[n - 1]] && b[..n] == b[..n - 1] + [b[n - 1]];
    }
  }

  lemma {:induction false} NotLonger(s: Searches, from: nat, call: nat, a: seq<SearchResult>, b: seq<SearchResult>)
    requires Climbs(s, from, call, a) && Stops(s, from, call, a) && Climbs(s, from, call, b)
    ensures |b| <= |a|
  {
    var n := |a|;
    if n < |b| {
      assert MovesOn(s, from, call, b, n);
      ClimbsAgree(s, from, call, a, b, n);
      assert false;
    }
  }

  lemma {:induction false} RoundUnique(s: Searches, t: Round, u: Round, sparse: nat)
    requires t.from == u.from && t.call == u.call
    requires Hit(s, t) || Miss(s, t, sparse)
    requires Hit(s, u) || Miss(s, u, sparse)
    ensures t == u
  {
    if Hit(s, t) && Hit(s, u) {
      NotLonger(s, t.from, t.call, t.found, u.found);
      NotLonger(s, t.from, t.call, u.found, t.found);
      ClimbsAgree(s, t.from, t.call, t.found, u.found, |t.found|);
      assert t.found == t.found[..|t.found|] == u.found[..|t.found|] == u.found;
    } else if Miss(s, t, sparse) && Miss(s, u, sparse) {
      var pos := t.from + 1;
      if pos <= sparse {
      } else if pos <= sparse + 4 * s.params.Spree() {
        FirstUnique(pos, 2, Goal(s, pos, 2, 8), t.to, u.to);
      } else {
        FirstUnique(pos, 4, Goal(s, pos, 4, 16), t.to, u.to);
      }
    }
  }

  lemma {:induction false} LogsAgree(s: Searches, a: seq<Round>, b: seq<Round>, n: nat, position: nat)
    requires Follows(s, a, position) && Follows(s, b, position) && n <= |a| && n <= |b|
    ensures a[..n] == b[..n]
    decreases n
  {
    if n > 0 {
      LogsAgree(s, a, b, n - 1, position);
      SameBefore(s, a, b, n - 1, position);
      assert RoundAt(s, a, n - 1, position) && RoundAt(s, b, n - 1, position);
      RoundUnique(s, a[n - 1], b[n - 1], SparseAt(s, a, n - 1, position));
      assert a[..n] == a[..n - 1] + [a[n - 1]] && b[..n] == b[..n - 1] + [b[n - 1]];
    }
  }

  lemma {:induction false} NoFewerRounds(s: Searches, a: seq<Round>, b: seq<Round>, position: nat)
    requires Complete(s, a, position) && Follows(s, b, position)
    ensures |b| <= |a|
  {
    if |a| < |b| {
      assert RoundAt(s, b, |a|, position);
      LogsAgree(s, a, b, |a|, position);
      SameBefore(s, a, b, |a|, position);
    }
  }

  /** There is one complete log: what the hasher answers leaves the call no choice. */
  lemma {:induction false} LogUnique(s: Searches, a: seq<Round>, b: seq<Round>, position: nat)
    requires Complete(s, a, position) && Complete(s, b, position)
    ensures a == b
  {
    NoFewerRounds(s, a, b, position);
    NoFewerRounds(s, b, a, position);
    LogsAgree(s, a, b, |a|, position);
    assert a == a[..|a|] == b[..|a|] == b;
  }

  lemma {:induction false} HitsPrefix(log: seq<Round>, t: Round, n: nat)
    requires n <= |log|
    ensures Hits(log + [t], n) == Hits(log, n) <= Hits(log, |log|)
    ensures n < |log| && log[n].found != [] ==> Hits(log, n) < Hits(log, |log|)
    ensures Hits(log + [t], |log| + 1) == Hits(log, |log|) + (if t.found == [] then 0 else 1)
  {
    assert (log + [t])[..n] == log[..n] && (log + [t])[..|log|] == log[..|log|];
    SameHits(log + [t], log, n);
    SameHits(log + [t], log, |log|);
    HitsGrow(log, n, |log|);
  }

  lemma {:induction false} SameHits(a: seq<Round>, b: seq<Round>, n: nat)
    requires n <= |a| && n <= |b| && forall i | 0 <= i < n :: a[i] == b[i]
    ensures Hits(a, n) == Hits(b, n)
    decreases n
  {
    if n > 0 { SameHits(a, b, n - 1); }
  }

  lemma {:induction false} HitsGrow(log: seq<Round>, m: nat, n: nat)
    requires m <= n <= |log|
    ensures Hits(log, m) <= Hits(log, n) && (m < n && log[m].found != [] ==> Hits(log, m) < Hits(log, n))
    decreases n
  {
    if m < n { HitsGrow(log, m, n - 1); }
  }

  lemma {:induction false} NoHits(log: seq<Round>, n: nat)
    requires n <= |log|
    ensures Hits(log, n) == 0 <==> forall i | 0 <= i < n :: log[i].found == []
    decreases n
  {
    if n > 0 { NoHits(log, n - 1); }
  }
}
