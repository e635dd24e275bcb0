/**
  The TCP Vegas concurrency regulator (sync/limiter/vegas.go), floats taken as reals.
*/
module Vegas {
  datatype Params = Params(alpha: real, beta: real, minCwnd: int, maxCwnd: int) {
    predicate Range() { 1 <= minCwnd <= maxCwnd }

    /** What the constructor guarantees. */
    predicate Valid() { alpha >= 1.0 && beta >= alpha + 1.0 && Range() }
  }

  predicate Whole(c: real) { c.Floor as real == c }

  predicate InBounds(p: Params, c: real) { p.minCwnd as real <= c <= p.maxCwnd as real }

  function Clamp(p: Params, c: real): real {
    if c < p.minCwnd as real then p.minCwnd as real else if c > p.maxCwnd as real then p.maxCwnd as real else c
  }

  /** The share of the window that the queue holds: 1 - base/sample. */
  function Queued(base: int, sample: int): real
    requires 0 < base <= sample
  {
    1.0 - base as real / sample as real
  }

  /** One adjustment of the window, q being the queue estimate. */
  function Step(p: Params, q: real, c: real): real {
    Clamp(p, if q < p.alpha then c + 1.0 else if q > p.beta then c - 1.0 else c)
  }

  /** The same for a queued share g. */
  function Adjust(p: Params, g: real, c: real): real { Step(p, c * g, c) }

  function MaxReal(a: real, b: real): real { if a >= b then a else b }
  function MaxInt(a: int, b: int): int { if a >= b then a else b }
  function NewBase(base: int, sample: int): int { if base == 0 || sample < base then sample else base }

  class VegasEngine {
    const params: Params
    var baseRTT: int
    var cwnd: real
    var sampleCount: nat
    /** The positive samples seen. */
    ghost var samples: seq<int>

    ghost predicate Valid()
      reads this
    {
      && params.Valid() && Whole(cwnd) && InBounds(params, cwnd)
      && sampleCount == |samples| && (baseRTT == 0 <==> samples == [])
      && (samples != [] ==> baseRTT in samples && forall i | 0 <= i < |samples| :: 0 < baseRTT <= samples[i])
    }

    constructor (alpha: real, beta: real, initialCwnd: int, maxCwnd: int)
      ensures Valid() && samples == [] && cwnd == params.minCwnd as real
      ensures params.alpha >= alpha && params.beta >= beta && params.minCwnd >= initialCwnd && params.maxCwnd >= maxCwnd
    {
      var a := MaxReal(alpha, 1.0);
      var minC := MaxInt(initialCwnd, 1);
      params := Params(a, MaxReal(beta, a + 1.0), minC, MaxInt(maxCwnd, minC));
      baseRTT, cwnd, sampleCount, samples := 0, minC as real, 0, [];
    }

    method Update(sampleRTT: int) returns (limit: int)
      requires Valid()
      modifies this
      ensures Valid() && limit == cwnd.Floor && params.minCwnd <= limit <= params.maxCwnd
      ensures sampleRTT <= 0 ==> unchanged(this)
      ensures sampleRTT > 0 ==>
        && samples == old(samples) + [sampleRTT] && baseRTT == NewBase(old(baseRTT), sampleRTT)
        && cwnd == Adjust(params, Queued(baseRTT, sampleRTT), old(cwnd))
    {
      if sampleRTT <= 0 { return cwnd.Floor; }
      sampleCount := sampleCount + 1;
      if baseRTT == 0 || sampleRTT < baseRTT { baseRTT := sampleRTT; }
      samples := samples + [sampleRTT];
      ghost var g := Queued(baseRTT, sampleRTT);
      AdjustWhole(params, g, cwnd);
      var targetCWND := cwnd * (baseRTT as real / sampleRTT as real);
      Distribute(cwnd, baseRTT as real / sampleRTT as real);
      cwnd := Regulate(cwnd, cwnd - targetCWND, g);
      limit := cwnd.Floor;
    }

    /** Compare the queue estimate with the thresholds, then keep to the bounds. */
    method Regulate(c: real, diff: real, ghost g: real) returns (next: real)
      requires diff == c * g
      ensures next == Adjust(params, g, c)
    {
      next := c;
      if diff < params.alpha {
        next := next + 1.0;
      } else if diff > params.beta {
        next := next - 1.0;
      }
      if next < params.minCwnd as real {
        next := params.minCwnd as real;
      } else if next > params.maxCwnd as real {
        next := params.maxCwnd as real;
      }
    }

    method Limit() returns (limit: int)
      requires Valid()
      ensures limit == cwnd.Floor && params.minCwnd <= limit <= params.maxCwnd
    {
      limit := cwnd.Floor;
    }
  }

  lemma {:induction false} Distribute(c: real, r: real)
    ensures c - c * r == c * (1.0 - r)
  {
  }

  // ----- a constant round-trip time -----

  /** The window after k samples of the same round-trip time. */
  function Iterate(p: Params, g: real, c: real, k: nat): real {
    if k == 0 then c else Adjust(p, g, Iterate(p, g, c, k - 1))
  }

  lemma {:induction false} QueuedRange(base: int, sample: int)
    requires 0 < base <= sample
    ensures 0.0 <= Queued(base, sample) < 1.0
  {
    var b, s := base as real, sample as real;
    var q := b / s;
    assert q * s == b && (1.0 - q) * s == s - b;
    Sign(q, s);
    Sign(1.0 - q, s);
  }

  /** The decision without division. Of the window, sample - base out of sample parts wait in a queue:
      less than alpha and it grows by one, more than beta and it shrinks by one, within the bounds. */
  lemma {:induction false} Regulates(p: Params, base: int, sample: int, c: real)
    requires p.Valid() && InBounds(p, c) && 0 < base <= sample
    ensures var queued, s, d := c * (sample - base) as real, sample as real, Adjust(p, Queued(base, sample), c);
      d == if queued < p.alpha * s then (if c + 1.0 <= p.maxCwnd as real then c + 1.0 else p.maxCwnd as real)
           else if queued > p.beta * s then (if c - 1.0 >= p.minCwnd as real then c - 1.0 else p.minCwnd as real)
           else c
  {
    var s, q := sample as real, c * Queued(base, sample);
    Share(c, base, sample);
    Sign(p.alpha - q, s);
    Sign(q - p.beta, s);
  }

  lemma {:induction false} Share(c: real, base: int, sample: int)
    requires 0 < base <= sample
    ensures c * Queued(base, sample) * sample as real == c * (sample - base) as real
  {
    var b, s := base as real, sample as real;
    var r := b / s;
    assert r * s == b;
    assert (1.0 - r) * s == s - b;
    assert c * (1.0 - r) * s == c * ((1.0 - r) * s);
  }

  lemma {:induction false} Sign(x: real, s: real)
    requires s > 0.0
    ensures x * s >= 0.0 <==> x >= 0.0
    ensures x * s > 0.0 <==> x > 0.0
  {
  }

  /** With the same sample again the base does not change, so the share is the same each time. */
  lemma {:induction false} ShareConstant(base: int, sample: int)
    requires base >= 0 && sample > 0
    ensures NewBase(NewBase(base, sample), sample) == NewBase(base, sample) && 0 < NewBase(base, sample) <= sample
  {
  }

  lemma {:induction false} AdjustWhole(p: Params, g: real, c: real)
    requires p.Range() && Whole(c) && InBounds(p, c)
    ensures Whole(Adjust(p, g, c)) && InBounds(p, Adjust(p, g, c))
    ensures Adjust(p, g, c) == c || Adjust(p, g, c) == c + 1.0 || Adjust(p, g, c) == c - 1.0
  {
    StepWhole(p, c * g, c);
  }

  lemma {:induction false} StepWhole(p: Params, q: real, c: real)
    requires p.Range() && Whole(c) && InBounds(p, c)
    ensures var d := Step(p, q, c); Whole(d) && InBounds(p, d) && (d == c || d == c + 1.0 || d == c - 1.0)
  {
    ClampWhole(p, c, if q < p.alpha then c + 1.0 else if q > p.beta then c - 1.0 else c);
  }

  lemma {:induction false} ClampWhole(p: Params, c: real, d: real)
    requires p.Range() && Whole(c) && InBounds(p, c) && (d == c || d == c + 1.0 || d == c - 1.0)
    ensures var e := Clamp(p, d); Whole(e) && InBounds(p, e) && (e == c || e == d)
  {
    var n := c.Floor;
    var m := if d == c then n else if d == c + 1.0 then n + 1 else n - 1;
    ClampInt(p, n, m, c, d);
  }

  lemma {:induction false} ClampInt(p: Params, n: int, m: int, c: real, d: real)
    requires p.Range() && c == n as real && d == m as real && n - 1 <= m <= n + 1 && InBounds(p, c)
    ensures var e := Clamp(p, d); Whole(e) && InBounds(p, e) && (e == c || e == d)
  {
    WholeInt(m);
    WholeInt(p.minCwnd);
    WholeInt(p.maxCwnd);
    assert p.minCwnd <= n <= p.maxCwnd;
  }

  lemma {:induction false} WholeInt(n: int)
    ensures Whole(n as real)
  {
  }

  // ----- when the window turns -----

  /** A step one way is followed by a step the other way. */
  predicate Turns(p: Params, g: real, c: real) {
    var d := Adjust(p, g, c);
    var e := Adjust(p, g, d);
    (d > c && e < d) || (d < c && e > d)
  }

  /** With queue estimates low for a window and high for the next larger one: the smaller is
      increased, the larger decreased. */
  predicate Opposed(p: Params, low: real, high: real) { low < p.alpha <= high && high > p.beta }

  lemma {:induction false} UpThenDown(p: Params, c: real, low: real, high: real)
    requires p.Range() && Whole(c) && InBounds(p, c) && Step(p, low, c) == c + 1.0
    ensures Step(p, high, c + 1.0) < c + 1.0 <==> Opposed(p, low, high)
    ensures Step(p, high, c + 1.0) < c + 1.0 ==> Step(p, high, c + 1.0) == c
  {
  }

  lemma {:induction false} DownThenUp(p: Params, c: real, low: real, high: real)
    requires p.Range() && Whole(c) && InBounds(p, c) && Step(p, high, c) == c - 1.0
    ensures Step(p, low, c - 1.0) > c - 1.0 <==> Opposed(p, low, high)
  {
  }

  /** The window turns only between two neighbours with opposed estimates. */
  lemma {:induction false} TurnsBetween(p: Params, g: real, c: real) returns (w: real, low: real, high: real)
    requires p.Range() && Whole(c) && InBounds(p, c) && Turns(p, g, c)
    ensures Whole(w) && p.minCwnd as real <= w < p.maxCwnd as real
    ensures low == w * g && high == (w + 1.0) * g && Opposed(p, low, high)
  {
    var d := Adjust(p, g, c);
    var q, r := c * g, d * g;
    StepWhole(p, q, c);
    if d > c {
      w, low, high := c, q, r;
      UpThenDown(p, c, q, r);
    } else {
      w, low, high := d, r, q;
      DownThenUp(p, c, r, q);
    }
  }

  function Higher(p: Params): real { MaxReal(p.alpha, p.beta) }

  /** The thresholds leave room between the windows c and c + 1: some share below one has opposed
      estimates for the two. */
  predicate Gap(p: Params, c: real) {
    if c <= p.alpha then c + 1.0 > Higher(p) else p.alpha * (c + 1.0) > Higher(p) * c
  }

  lemma {:induction false} OpposedGap(p: Params, c: real, g: real, low: real, high: real)
    requires c >= 1.0 && 0.0 <= g < 1.0 && low == c * g && high == (c + 1.0) * g && Opposed(p, low, high)
    ensures Gap(p, c)
  {
    Smaller(c + 1.0, g, high);
    Commute(c, g, low, high);
    LowHighGap(p, c, low, high);
  }

  lemma {:induction false} LowHighGap(p: Params, c: real, low: real, high: real)
    requires c >= 1.0 && high < c + 1.0 && high * c == low * (c + 1.0) && Opposed(p, low, high)
    ensures Gap(p, c)
  {
    var m := Higher(p);
    assert high >= m;
    if c > p.alpha { CrossMultiply(c, low, high, p.alpha, m); }
  }

  lemma {:induction false} Smaller(c: real, g: real, q: real)
    requires c > 0.0 && g < 1.0 && q == c * g
    ensures q < c
  {
  }

  lemma {:induction false} CrossMultiply(c: real, low: real, high: real, alpha: real, m: real)
    requires c > 0.0 && low < alpha && m <= high && high * c == low * (c + 1.0)
    ensures alpha * (c + 1.0) > m * c
  {
    Scale(low, alpha, c + 1.0);
    ScaleLe(m, high, c);
  }

  lemma {:induction false} Commute(c: real, g: real, low: real, high: real)
    requires low == c * g && high == (c + 1.0) * g
    ensures high * c == low * (c + 1.0)
  {
  }

  lemma {:induction false} Scale(x: real, y: real, s: real)
    requires x < y && s > 0.0
    ensures x * s < y * s
  {
  }

  lemma {:induction false} ScaleLe(x: real, y: real, s: real)
    requires x <= y && s > 0.0
    ensures x * s <= y * s
  {
  }

  /** A share for each such gap. */
  lemma {:induction false} GapOpposed(p: Params, c: real) returns (g: real, low: real, high: real)
    requires c >= 1.0 && Gap(p, c)
    ensures 0.0 <= g < 1.0 && low == c * g && high == (c + 1.0) * g && Opposed(p, low, high)
  {
    if c <= p.alpha { g, low, high := NearOne(p, c); } else { g, low, high := InTheGap(p, c); }
  }

  lemma {:induction false} NearOne(p: Params, c: real) returns (g: real, low: real, high: real)
    requires 1.0 <= c <= p.alpha && Higher(p) < c + 1.0
    ensures 0.0 <= g < 1.0 && low == c * g && high == (c + 1.0) * g && Opposed(p, low, high)
  {
    high := (Higher(p) + c + 1.0) / 2.0;
    g := Ratio(high, c + 1.0);
    low := c * g;
    Smaller(c, g, low);
  }

  lemma {:induction false} InTheGap(p: Params, c: real) returns (g: real, low: real, high: real)
    requires c >= 1.0 && p.alpha < c && p.alpha * (c + 1.0) > Higher(p) * c
    ensures 0.0 <= g < 1.0 && low == c * g && high == (c + 1.0) * g && Opposed(p, low, high)
  {
    var m := Higher(p);
    var a := Quotient(p.alpha, c);
    var b := Quotient(m, c + 1.0);
    QuotientsOrdered(p.alpha, c, a, m, b);
    g := (a + b) / 2.0;
    low, high := c * g, (c + 1.0) * g;
    Between(p.alpha, m, c, a, b, g, low, high);
  }

  lemma {:induction false} Quotient(x: real, s: real) returns (r: real)
    requires s > 0.0
    ensures r * s == x
  {
    r := x / s;
  }

  lemma {:induction false} Ratio(x: real, s: real) returns (r: real)
    requires 0.0 < x < s
    ensures 0.0 < r < 1.0 && s * r == x
  {
    r := Quotient(x, s);
    Sign(r, s);
    assert (1.0 - r) * s == s - x;
    Sign(1.0 - r, s);
  }

  lemma {:induction false} QuotientsOrdered(alpha: real, c: real, low: real, m: real, high: real)
    requires c > 0.0 && low * c == alpha <= m && high * (c + 1.0) == m && alpha * (c + 1.0) > m * c
    ensures 0.0 < high < low
  {
    ScaleLe(alpha, m, c);
    assert alpha * (c + 1.0) == alpha * c + alpha;
    Sign(high, c + 1.0);
    var s := c * (c + 1.0);
    assert s > 0.0 && low * s == alpha * (c + 1.0) && high * s == m * c;
    if high >= low { ScaleLe(low, high, s); }
  }

  lemma {:induction false} Between(alpha: real, m: real, c: real, a: real, b: real, g: real, low: real, high: real)
    requires c >= 1.0 && alpha < c && a * c == alpha && b * (c + 1.0) == m && 0.0 < b < g < a
    requires low == c * g && high == (c + 1.0) * g
    ensures 0.0 <= g < 1.0 && low < alpha && m < high
  {
    Scale(g, a, c);
    Scale(b, g, c + 1.0);
    assert (1.0 - a) * c == c - alpha;
    Sign(1.0 - a, c);
  }

  /** No share below one and no window in the range make it turn. */
  ghost predicate NeverTurns(p: Params) {
    forall g, c | 0.0 <= g < 1.0 && Whole(c) && InBounds(p, c) :: !Turns(p, g, c)
  }

  /** The thresholds leave no gap between two windows of the range. */
  ghost predicate NoGap(p: Params) {
    forall c | Whole(c) && p.minCwnd as real <= c < p.maxCwnd as real :: !Gap(p, c)
  }

  /** The window never turns exactly for thresholds without a gap. */
  lemma {:induction false} NeverTurnsExactly(p: Params)
    requires p.Range()
    ensures NeverTurns(p) <==> NoGap(p)
  {
    if NoGap(p) {
      forall g, c | 0.0 <= g < 1.0 && Whole(c) && InBounds(p, c) ensures !Turns(p, g, c) { NoGapNoTurn(p, g, c); }
    } else {
      var c :| Whole(c) && p.minCwnd as real <= c < p.maxCwnd as real && Gap(p, c);
      var g := GapTurns(p, c);
    }
  }

  lemma {:induction false} NoGapNoTurn(p: Params, g: real, c: real)
    requires p.Range() && 0.0 <= g < 1.0 && Whole(c) && InBounds(p, c) && NoGap(p)
    ensures !Turns(p, g, c)
  {
    if Turns(p, g, c) {
      var w, low, high := TurnsBetween(p, g, c);
      OpposedGap(p, w, g, low, high);
    }
  }

  lemma {:induction false} GapTurns(p: Params, c: real) returns (g: real)
    requires p.Range() && Whole(c) && p.minCwnd as real <= c < p.maxCwnd as real && Gap(p, c)
    ensures 0.0 <= g < 1.0 && Turns(p, g, c)
    ensures Adjust(p, g, c) == c + 1.0 && Adjust(p, g, c + 1.0) == c
  {
    var low, high;
    g, low, high := GapOpposed(p, c);
    NextWhole(c, p.maxCwnd);
    UpThenDown(p, c, low, high);
  }

  lemma {:induction false} NextWhole(c: real, m: int)
    requires Whole(c) && c < m as real
    ensures c + 1.0 <= m as real
  {
    assert c.Floor < m;
  }

  /** And then it swings for ever. */
  lemma {:induction false} GapSwings(p: Params, g: real, c: real, k: nat)
    requires Adjust(p, g, c) == c + 1.0 && Adjust(p, g, c + 1.0) == c
    ensures Iterate(p, g, c, k) == if k % 2 == 0 then c else c + 1.0
  {
    if k > 0 { GapSwings(p, g, c, k - 1); }
  }

  /** Thresholds one apart leave no gap, whatever the range; with a whole lower threshold inside the
      range nothing less does. */
  lemma {:induction false} OneApart(p: Params)
    requires p.Range()
    ensures p.beta >= p.alpha + 1.0 ==> NoGap(p)
    ensures Whole(p.alpha) && p.minCwnd as real <= p.alpha && p.alpha + 1.0 <= p.maxCwnd as real ==>
      (NeverTurns(p) <==> p.beta >= p.alpha + 1.0)
  {
    if p.beta >= p.alpha + 1.0 {
      forall c | Whole(c) && p.minCwnd as real <= c < p.maxCwnd as real ensures !Gap(p, c) { ClosedGap(p, c); }
    } else if Whole(p.alpha) && p.minCwnd as real <= p.alpha && p.alpha + 1.0 <= p.maxCwnd as real {
      assert Gap(p, p.alpha);
    }
    NeverTurnsExactly(p);
  }

  lemma {:induction false} ClosedGap(p: Params, c: real)
    requires c >= 1.0 && p.beta >= p.alpha + 1.0
    ensures !Gap(p, c)
  {
    if c > p.alpha {
      ScaleLe(p.alpha + 1.0, p.beta, c);
      Expand(p.alpha, c);
    }
  }

  lemma {:induction false} Expand(x: real, y: real)
    ensures x * (y + 1.0) == x * y + x && (x + 1.0) * y == x * y + y
  {
  }

  /** After a step up the next one is not down, and after a step down the next one is not up: the
      thresholds are at least one apart and the share is below one. */
  lemma {:induction false} NoTurn(p: Params, g: real, c: real)
    requires p.Valid() && 0.0 <= g < 1.0 && Whole(c) && InBounds(p, c)
    ensures var d := Adjust(p, g, c);
      && (d > c ==> Adjust(p, g, d) >= d) && (d < c ==> Adjust(p, g, d) <= d) && (d == c ==> Adjust(p, g, d) == d)
  {
    OneApart(p);
    NoGapNoTurn(p, g, c);
  }

  // ----- the whole sequence -----

  lemma {:induction false} IterateWhole(p: Params, g: real, c: real, k: nat)
    requires p.Valid() && Whole(c) && InBounds(p, c)
    ensures Whole(Iterate(p, g, c, k)) && InBounds(p, Iterate(p, g, c, k))
  {
    if k > 0 {
      IterateWhole(p, g, c, k - 1);
      AdjustWhole(p, g, Iterate(p, g, c, k - 1));
    }
  }

  /** As long as the window still moves, it has moved by one, one way, with every sample. */
  lemma {:induction false} SteadyMarch(p: Params, g: real, c: real, k: nat)
    requires p.Valid() && 0.0 <= g < 1.0 && Whole(c) && InBounds(p, c)
    ensures var x, y := Iterate(p, g, c, k), Iterate(p, g, c, k + 1);
      && (y > x ==> y == c + (k + 1) as real) && (y < x ==> y == c - (k + 1) as real)
  {
    IterateWhole(p, g, c, k);
    AdjustWhole(p, g, Iterate(p, g, c, k));
    if k > 0 {
      SteadyMarch(p, g, c, k - 1);
      IterateWhole(p, g, c, k - 1);
      NoTurn(p, g, Iterate(p, g, c, k - 1));
    }
  }

  /** Under a constant round-trip time the window stops after at most maxCwnd - minCwnd samples. */
  lemma {:induction false} Settles(p: Params, g: real, c: real, k: nat)
    requires p.Valid() && 0.0 <= g < 1.0 && Whole(c) && InBounds(p, c) && k >= p.maxCwnd - p.minCwnd
    ensures Iterate(p, g, c, k + 1) == Iterate(p, g, c, k)
  {
    SteadyMarch(p, g, c, k);
    IterateWhole(p, g, c, k + 1);
  }

  /** It never oscillates: the whole sequence goes one way. */
  lemma {:induction false} NeverOscillates(p: Params, g: real, c: real, i: nat, j: nat)
    requires p.Valid() && 0.0 <= g < 1.0 && Whole(c) && InBounds(p, c) && i <= j
    ensures Iterate(p, g, c, 1) >= c ==> Iterate(p, g, c, j) >= Iterate(p, g, c, i)
    ensures Iterate(p, g, c, 1) <= c ==> Iterate(p, g, c, j) <= Iterate(p, g, c, i)
    decreases j
  {
    if i < j {
      NeverOscillates(p, g, c, i, j - 1);
      OneWay(p, g, c, j - 1);
    }
  }

  lemma {:induction false} OneWay(p: Params, g: real, c: real, k: nat)
    requires p.Valid() && 0.0 <= g < 1.0 && Whole(c) && InBounds(p, c)
    ensures var x, y := Iterate(p, g, c, k), Iterate(p, g, c, k + 1);
      && (Iterate(p, g, c, 1) >= c ==> y >= x) && (Iterate(p, g, c, 1) <= c ==> y <= x)
    decreases k
  {
    assert Iterate(p, g, c, 0) == c && Iterate(p, g, c, 1) == Adjust(p, g, c);
    if k > 0 {
      OneWay(p, g, c, k - 1);
      IterateWhole(p, g, c, k - 1);
      NoTurn(p, g, Iterate(p, g, c, k - 1));
    }
  }

  /** Each window is the one before it, adjusted. */
  ghost predicate Trace(p: Params, g: real, c: real, seen: seq<real>) {
    seen != [] && seen[0] == c && forall i | 0 <= i < |seen| - 1 :: seen[i + 1] == Adjust(p, g, seen[i])
  }

  lemma {:induction false} TraceIterates(p: Params, g: real, c: real, seen: seq<real>)
    requires Trace(p, g, c, seen)
    ensures forall i | 0 <= i < |seen| :: seen[i] == Iterate(p, g, c, i)
    decreases |seen|
  {
    if |seen| > 1 {
      var n := |seen| - 1;
      TraceIterates(p, g, c, seen[..n]);
      assert seen[n] == Adjust(p, g, seen[n - 1]) && seen[..n][n - 1] == Iterate(p, g, c, n - 1);
    }
  }

  method Feed(engine: VegasEngine, sample: int, ghost base: int, ghost g: real)
    requires engine.Valid() && NewBase(engine.baseRTT, sample) == base && 0 < base <= sample && g == Queued(base, sample)
    modifies engine
    ensures engine.Valid() && NewBase(engine.baseRTT, sample) == base
    ensures engine.cwnd == Adjust(engine.params, g, old(engine.cwnd))
  {
    var limit := engine.Update(sample);
  }

  /** The engine itself under k equal samples: seen[i] is its window after i of them. It goes one
      way, never turns, and after maxCwnd - minCwnd samples it no longer changes. */
  method FeedConstant(engine: VegasEngine, sample: int, k: nat) returns (ghost seen: seq<real>)
    requires engine.Valid() && sample > 0
    modifies engine
    ensures engine.Valid() && |seen| == k + 1 && seen[0] == old(engine.cwnd) && seen[k] == engine.cwnd
    ensures forall i | 0 <= i <= k ::
      seen[i] == Iterate(engine.params, Queued(NewBase(old(engine.baseRTT), sample), sample), old(engine.cwnd), i)
    ensures (forall i, j | 0 <= i <= j <= k :: seen[i] <= seen[j]) || (forall i, j | 0 <= i <= j <= k :: seen[i] >= seen[j])
    ensures forall i | engine.params.maxCwnd - engine.params.minCwnd <= i <= k :: seen[i] == engine.cwnd
  {
    ghost var c, base := engine.cwnd, NewBase(engine.baseRTT, sample);
    ghost var g := Queued(base, sample);
    ShareConstant(engine.baseRTT, sample);
    seen := [c];
    for n := 0 to k
      invariant engine.Valid() && NewBase(engine.baseRTT, sample) == base && |seen| == n + 1 && seen[n] == engine.cwnd
      invariant Trace(engine.params, g, c, seen)
    {
      Feed(engine, sample, base, g);
      seen := seen + [engine.cwnd];
    }
    TraceIterates(engine.params, g, c, seen);
    SettlesOneWay(engine.params, base, sample, c, k, seen);
  }

  lemma {:induction false} SettlesOneWay(p: Params, base: int, sample: int, c: real, k: nat, seen: seq<real>)
    requires p.Valid() && 0 < base <= sample && Whole(c) && InBounds(p, c) && |seen| == k + 1
    requires forall i | 0 <= i <= k :: seen[i] == Iterate(p, Queued(base, sample), c, i)
    ensures (forall i, j | 0 <= i <= j <= k :: seen[i] <= seen[j]) || (forall i, j | 0 <= i <= j <= k :: seen[i] >= seen[j])
    ensures forall i | p.maxCwnd - p.minCwnd <= i <= k :: seen[i] == seen[k]
  {
    var g := Queued(base, sample);
    QueuedRange(base, sample);
    forall i: nat, j: nat | i <= j <= k
      ensures Iterate(p, g, c, 1) >= c ==> seen[i] <= seen[j]
      ensures Iterate(p, g, c, 1) <= c ==> seen[i] >= seen[j]
    {
      NeverOscillates(p, g, c, i, j);
    }
    forall i: nat | p.maxCwnd - p.minCwnd <= i <= k ensures seen[i] == seen[k] { SettledStays(p, g, c, i, k); }
  }

  lemma {:induction false} SettledStays(p: Params, g: real, c: real, i: nat, k: nat)
    requires p.Valid() && 0.0 <= g < 1.0 && Whole(c) && InBounds(p, c) && p.maxCwnd - p.minCwnd <= i <= k
    ensures Iterate(p, g, c, i) == Iterate(p, g, c, k)
    decreases k
  {
    if i < k {
      SettledStays(p, g, c, i, k - 1);
      Settles(p, g, c, k - 1);
    }
  }
}
