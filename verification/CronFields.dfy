/**
  The cron field parser (x/cron/parser.go). A field reaches it from strings.Fields, so it holds
  no white space and trimming its pieces does nothing.
*/
module CronFields {
  import opened Optional
  import opened Words
  import opened Text

  /** One stepped range: start, start + step, ... up to end. */
  datatype Range = Range(start: int, end: int, step: int) {
    predicate Within(min: int, max: int) { min <= start <= end <= max && 1 <= step <= MaxInt }
  }

  /** k is start, start + step, start + 2 step, ... */
  predicate On(r: Range, k: int)
    requires r.step >= 1
    decreases k - r.start
  {
    k == r.start || (k > r.start && On(r, k - r.step))
  }

  predicate Covers(r: Range, k: int)
    requires r.step >= 1
  {
    k <= r.end && On(r, k)
  }

  /** The same, as a remainder. */
  lemma {:induction false} OnIsMultiple(r: Range, k: int)
    requires r.step >= 1
    ensures On(r, k) <==> k >= r.start && (k - r.start) % r.step == 0
    decreases k - r.start
  {
    if k == r.start {
      Remainder(0, 0, 0, r.step);
    } else if r.start < k < r.start + r.step {
      Remainder(k - r.start, 0, k - r.start, r.step);
    } else if k > r.start {
      OnIsMultiple(r, k - r.step);
      var x := k - r.step - r.start;
      assert x + r.step == (x / r.step + 1) * r.step + x % r.step;
      Remainder(x + r.step, x / r.step + 1, x % r.step, r.step);
    }
  }

  function ParseBounds(s: string, step: int, min: int, max: int): (r: Option<Range>)
    requires min <= max && 1 <= step <= MaxInt
    ensures r.Some? ==> r.value.Within(min, max)
  {
    if s == "*" then Some(Range(min, max, step)) else
      var ps := SplitOn(s, '-');
      if |ps| == 2 then
        var a, b := Atoi(ps[0]), Atoi(ps[1]);
        if a.None? || b.None? || a.value > b.value || a.value < min || b.value > max then None
        else Some(Range(a.value, b.value, step))
      else
        var v := Atoi(s);
        if v.None? || v.value < min || v.value > max then None else Some(Range(v.value, v.value, step))
  }

  function ParseExpr(expr: string, min: int, max: int): (r: Option<Range>)
    requires min <= max
    ensures r.Some? ==> r.value.Within(min, max)
  {
    var parts := SplitOn(expr, '/');
    if |parts| == 2 then
      var s := Atoi(parts[1]);
      if s.None? || s.value <= 0 then None else ParseBounds(parts[0], s.value, min, max)
    else ParseBounds(expr, 1, min, max)
  }

  /** The 64-bit loop counter wraps to a negative number, and shifting by it panics. */
  predicate Wraps(r: Range) { r.start + r.step > MaxInt }

  datatype Verdict = Fine | Refused | Fatal

  function Judge(expr: string, min: int, max: int): Verdict
    requires min <= max
  {
    if expr == "" then Fine else
      match ParseExpr(expr, min, max)
      case None => Refused
      case Some(r) => if Wraps(r) then Fatal else Fine
  }

  /** i lies on the stepped range that an expression denotes. */
  predicate Denotes(expr: string, min: int, max: int, i: int)
    requires min <= max
  {
    expr != "" && ParseExpr(expr, min, max).Some? && Covers(ParseExpr(expr, min, max).value, i)
  }

  lemma {:induction false} BitOfOne(i: nat)
    ensures Bit(1, i) == (i == 0)
  {
    if i > 0 {
      assert Bit(1, i) == Bit(0, i - 1);
      BitOfZero(i - 1);
    }
  }

  lemma {:induction false} OrOneBit(bits: nat, i: nat, k: nat)
    ensures Bit(Or(bits, Shl(1, i)), k) == (Bit(bits, k) || k == i)
  {
    BitOr(bits, Shl(1, i), k);
    BitShl(1, i, k);
    if k >= i { BitOfOne(k - i); }
  }

  /** The covered numbers below i. */
  ghost predicate Reached(r: Range, i: int, k: int)
    requires r.step >= 1
  {
    k < i && Covers(r, k)
  }

  lemma {:induction false} ReachedNext(r: Range, i: int, k: int)
    requires r.step >= 1 && i <= r.end && On(r, i)
    ensures Reached(r, i + r.step, k) == (Reached(r, i, k) || k == i) && On(r, i + r.step)
  {
    OnStart(r, i);
    if i < k < i + r.step { NoneBetween(r, i, k); }
  }

  lemma {:induction false} OnStart(r: Range, i: int)
    requires r.step >= 1 && On(r, i)
    ensures i >= r.start
    decreases i - r.start
  {
  }

  lemma {:induction false} NoneBetween(r: Range, i: int, k: int)
    requires r.step >= 1 && On(r, i) && i < k < i + r.step
    ensures !On(r, k)
    decreases i - r.start
  {
    if i > r.start { NoneBetween(r, i - r.step, k - r.step); }
  }

  /** Quotient and remainder are unique. */
  lemma {:induction false} Remainder(x: int, q: int, r: int, step: int)
    requires step >= 1 && x == q * step + r && 0 <= r < step
    ensures x % step == r && x / step == q
  {
    var p := x / step;
    assert x == p * step + x % step;
    assert (q - p) * step == x % step - r;
    if p < q { TimesAtLeast(q - p, step); }
    if q < p { TimesAtLeast(p - q, step); }
  }

  lemma {:induction false} TimesAtLeast(a: int, b: int)
    requires a >= 1 && b >= 1
    ensures a * b >= b && (-a) * b <= -b
  {
  }

  /** The bits of bits0, and the covered numbers below i. */
  ghost predicate SetBelow(bits: nat, bits0: nat, r: Range, i: int)
    requires r.step >= 1
  {
    forall k: nat :: Bit(bits, k) == (Bit(bits0, k) || Reached(r, i, k))
  }

  lemma {:induction false} SetNext(bits: nat, bits0: nat, r: Range, i: nat)
    requires r.step >= 1 && i <= r.end && On(r, i) && SetBelow(bits, bits0, r, i)
    ensures SetBelow(Or(bits, Shl(1, i)), bits0, r, i + r.step) && On(r, i + r.step)
  {
    ReachedNext(r, i, i);
    forall k: nat ensures Bit(Or(bits, Shl(1, i)), k) == (Bit(bits0, k) || Reached(r, i + r.step, k)) {
      OrOneBit(bits, i, k);
      ReachedNext(r, i, k);
    }
  }

  /** The inner loop: sets every bit of the range, or panics exactly when the counter wraps. */
  method SetRange(bits0: nat, r: Range) returns (ok: bool, bits: nat)
    requires r.Within(0, 63)
    ensures ok == !Wraps(r)
    ensures ok ==> forall k: nat :: Bit(bits, k) == (Bit(bits0, k) || Covers(r, k))
  {
    bits := bits0;
    var i := r.start;
    while i <= r.end
      invariant r.start <= i && On(r, i) && (i > r.start ==> !Wraps(r))
      invariant SetBelow(bits, bits0, r, i)
      decreases r.end - i
    {
      SetNext(bits, bits0, r, i);
      bits := Or(bits, Shl(1, i));
      if i + r.step > MaxInt { return false, bits; }
      i := i + r.step;
    }
    assert forall k: nat :: Reached(r, i, k) == Covers(r, k);
    ok := true;
  }

  datatype Outcome = Bits(bits: nat) | Invalid | Panic

  /** The first expression that is not fine decides. */
  function FieldVerdict(es: seq<string>, n: nat, min: int, max: int): Verdict
    requires n <= |es| && min <= max
    decreases |es| - n
  {
    if n == |es| then Fine
    else if Judge(es[n], min, max) != Fine then Judge(es[n], min, max)
    else FieldVerdict(es, n + 1, min, max)
  }

  /** Bit i is set exactly when one of the first n expressions denotes i. */
  ghost predicate UnionOf(bits: nat, es: seq<string>, n: nat, min: int, max: int)
    requires n <= |es| && min <= max
  {
    forall i: nat :: Bit(bits, i) <==> exists j | 0 <= j < n :: Denotes(es[j], min, max, i)
  }

  lemma {:induction false} UnionNext(bits: nat, more: nat, es: seq<string>, n: nat, min: int, max: int)
    requires n < |es| && min <= max && UnionOf(bits, es, n, min, max)
    requires forall i: nat :: Bit(more, i) == (Bit(bits, i) || Denotes(es[n], min, max, i))
    ensures UnionOf(more, es, n + 1, min, max)
  {
    forall i: nat ensures Bit(more, i) <==> exists j | 0 <= j < n + 1 :: Denotes(es[j], min, max, i) {
      assert Bit(bits, i) <==> exists j | 0 <= j < n :: Denotes(es[j], min, max, i);
    }
  }

  /** The bits are exactly the union of the stepped ranges; the outcome is otherwise that of the
      first expression that does not parse or whose step wraps the counter. */
  ghost predicate Parsed(field: string, min: int, max: int, r: Outcome)
    requires min <= max
  {
    var es := SplitOn(field, ',');
    match FieldVerdict(es, 0, min, max)
    case Fine => r.Bits? && UnionOf(r.bits, es, |es|, min, max)
    case Refused => r == Invalid
    case Fatal => r == Panic
  }

  method ParseField(field: string, min: int, max: int) returns (r: Outcome)
    requires 0 <= min <= max <= 63
    ensures Parsed(field, min, max, r)
  {
    var es := SplitOn(field, ',');
    var bits := 0;
    forall i: nat ensures !Bit(0, i) { BitOfZero(i); }
    for n := 0 to |es|
      invariant FieldVerdict(es, n, min, max) == FieldVerdict(es, 0, min, max)
      invariant UnionOf(bits, es, n, min, max)
    {
      var v, more := ParseOne(bits, es[n], min, max);
      if v == Refused { return Invalid; }
      if v == Fatal { return Panic; }
      UnionNext(bits, more, es, n, min, max);
      bits := more;
    }
    r := Bits(bits);
  }

  /** One expression: an empty one sets nothing. */
  method ParseOne(bits: nat, expr: string, min: int, max: int) returns (v: Verdict, more: nat)
    requires 0 <= min <= max <= 63
    ensures v == Judge(expr, min, max)
    ensures v == Fine ==> forall i: nat :: Bit(more, i) == (Bit(bits, i) || Denotes(expr, min, max, i))
  {
    if expr == "" { return Fine, bits; }
    var range := ParseExpr(expr, min, max);
    if range.None? { return Refused, bits; }
    var ok;
    ok, more := SetRange(bits, range.value);
    v := if ok then Fine else Fatal;
  }

  /** Only bits of the field's own interval are ever set. */
  lemma {:induction false} DenotedInRange(expr: string, min: int, max: int, i: int)
    requires min <= max && Denotes(expr, min, max, i)
    ensures min <= i <= max
  {
    OnStart(ParseExpr(expr, min, max).value, i);
  }

  // ----- what a written field means -----

  datatype Item = Star | Number(v: nat) | Span(a: nat, b: nat)

  /** An expression, with or without a step. */
  datatype Expr = Expr(item: Item, step: Option<int>) {
    function Low(min: int): int { if item.Star? then min else if item.Number? then item.v else item.a }
    function High(max: int): int { if item.Star? then max else if item.Number? then item.v else item.b }
    function Step(): int { if step.Some? then step.value else 1 }

    function ItemText(): string {
      if item.Star? then "*" else if item.Number? then Itoa(item.v) else Itoa(item.a) + "-" + Itoa(item.b)
    }

    function Text(): string { if step.Some? then ItemText() + "/" + Itoa(step.value) else ItemText() }

    /** Bounds in order and in the interval, and a step that advances. */
    predicate Legal(min: int, max: int) { min <= Low(min) <= High(max) <= max && 1 <= Step() <= MaxInt }

    /** The numbers from the lower bound to the upper, in steps. */
    predicate Means(min: int, max: int, i: int)
      requires Step() >= 1
    {
      Low(min) <= i <= High(max) && (i - Low(min)) % Step() == 0
    }
  }

  lemma {:induction false} NoSuch(n: int, c: char)
    requires !IsDigit(c) && c != '-'
    ensures c !in Itoa(n)
  {
  }

  lemma {:induction false} SplitAlone(s: string, c: char)
    requires c !in s
    ensures SplitOn(s, c) == [s]
  {
    SplitExactly(s, c, [s]);
  }

  lemma {:induction false} BoundsOf(e: Expr, step: int, min: int, max: int)
    requires 0 <= min <= max <= 63 && 1 <= step <= MaxInt
    ensures ParseBounds(e.ItemText(), step, min, max) ==
      if min <= e.Low(min) <= e.High(max) <= max then Some(Range(e.Low(min), e.High(max), step)) else None
  {
    match e.item
    case Star =>
    case Number(v) =>
      AtoiItoa(v);
      assert IsDigit(Itoa(v)[0]);
      PlainNumber(v, '-');
      SplitAlone(Itoa(v), '-');
    case Span(a, b) =>
      var s := Itoa(a) + ['-'] + Itoa(b);
      assert s[|Itoa(a)|] == '-';
      PlainNumber(a, '-');
      PlainNumber(b, '-');
      SplitInTwo(Itoa(a), Itoa(b), '-');
      AtoiItoa(a);
      AtoiItoa(b);
  }

  lemma {:induction false} ItemPlain(e: Expr, c: char)
    requires !IsDigit(c) && c != '-' && c != '*'
    ensures c !in e.ItemText()
  {
    match e.item
    case Star =>
    case Number(v) => NoSuch(v, c);
    case Span(a, b) => NoSuch(a, c); NoSuch(b, c);
  }

  lemma {:induction false} ExprOf(e: Expr, min: int, max: int)
    requires 0 <= min <= max <= 63
    ensures ParseExpr(e.Text(), min, max) == if e.Legal(min, max) then Some(Range(e.Low(min), e.High(max), e.Step())) else None
    ensures ',' !in e.Text() && e.Text() != ""
  {
    ItemPlain(e, '/');
    ItemPlain(e, ',');
    if e.step.Some? {
      var n := e.step.value;
      NoSuch(n, '/');
      NoSuch(n, ',');
      AtoiItoa(n);
      assert e.Text() == e.ItemText() + ['/'] + Itoa(n);
      SplitInTwo(e.ItemText(), Itoa(n), '/');
      if 1 <= n <= MaxInt { BoundsOf(e, n, min, max); }
    } else {
      SplitAlone(e.ItemText(), '/');
      BoundsOf(e, 1, min, max);
    }
  }

  /** An expression is refused exactly for bounds out of order or outside the interval, or a step
      that is not positive; otherwise it denotes what it says. */
  lemma {:induction false} ExprMeans(e: Expr, min: int, max: int)
    requires 0 <= min <= max <= 63
    ensures Judge(e.Text(), min, max) == VerdictFor(e, min, max)
    ensures forall i: int :: Denotes(e.Text(), min, max, i) <==> e.Legal(min, max) && e.Means(min, max, i)
  {
    ExprOf(e, min, max);
    if e.Legal(min, max) {
      forall i: int ensures Denotes(e.Text(), min, max, i) <==> e.Means(min, max, i) {
        OnIsMultiple(Range(e.Low(min), e.High(max), e.Step()), i);
      }
    }
  }

  function Texts(es: seq<Expr>): (ts: seq<string>)
    ensures |ts| == |es|
  {
    seq(|es|, i requires 0 <= i < |es| => es[i].Text())
  }

  predicate Runs(e: Expr, min: int, max: int) { e.Legal(min, max) && e.Low(min) + e.Step() <= MaxInt }

  /** A field written from expressions sets exactly the bits that they mean between them; it fails
      exactly if one of them is illegal or has a step that wraps the counter, and the first such one
      decides how. */
  lemma {:induction false} FieldMeans(es: seq<Expr>, min: int, max: int, r: Outcome) returns (j: nat)
    requires es != [] && 0 <= min <= max <= 63 && Parsed(JoinWith(Texts(es), ','), min, max, r)
    ensures j <= |es| && (forall k | 0 <= k < j :: Runs(es[k], min, max)) && (j < |es| ==> !Runs(es[j], min, max))
    ensures j < |es| ==> r == if es[j].Legal(min, max) then Panic else Invalid
    ensures j == |es| ==> r.Bits? && forall i: nat ::
      Bit(r.bits, i) <==> exists k | 0 <= k < |es| :: Runs(es[k], min, max) && es[k].Means(min, max, i)
  {
    var ts, vs := Texts(es), Verdicts(es, min, max);
    Judged(es, ts, vs, min, max);
    SplitExactly(JoinWith(ts, ','), ',', ts);
    j := FirstFault(ts, vs, 0, min, max);
    FaultsAre(es, vs, j, min, max);
    if j == |es| { UnionMeans(es, ts, min, max, r.bits); }
  }

  function Verdicts(es: seq<Expr>, min: int, max: int): (vs: seq<Verdict>)
    ensures |vs| == |es|
  {
    seq(|es|, k requires 0 <= k < |es| => VerdictFor(es[k], min, max))
  }

  lemma {:induction false} Judged(es: seq<Expr>, ts: seq<string>, vs: seq<Verdict>, min: int, max: int)
    requires 0 <= min <= max <= 63 && ts == Texts(es) && vs == Verdicts(es, min, max)
    ensures forall k | 0 <= k < |ts| :: ',' !in ts[k]
    ensures forall k | 0 <= k < |ts| :: vs[k] == Judge(ts[k], min, max)
  {
    forall k | 0 <= k < |ts| ensures ',' !in ts[k] && vs[k] == Judge(ts[k], min, max) {
      ExprOf(es[k], min, max);
      ExprMeans(es[k], min, max);
    }
  }

  lemma {:induction false} FaultsAre(es: seq<Expr>, vs: seq<Verdict>, j: nat, min: int, max: int)
    requires vs == Verdicts(es, min, max) && j <= |es| && (forall k | 0 <= k < j :: vs[k] == Fine) && (j < |es| ==> vs[j] != Fine)
    ensures forall k | 0 <= k < j :: Runs(es[k], min, max)
    ensures j < |es| ==> !Runs(es[j], min, max) && vs[j] == if es[j].Legal(min, max) then Fatal else Refused
  {
    forall k | 0 <= k < j ensures Runs(es[k], min, max) { assert vs[k] == Fine; }
  }

  function VerdictFor(e: Expr, min: int, max: int): Verdict {
    if Runs(e, min, max) then Fine else if e.Legal(min, max) then Fatal else Refused
  }

  /** The first expression that fails, if any. */
  lemma {:induction false} FirstFault(ts: seq<string>, vs: seq<Verdict>, n: nat, min: int, max: int) returns (j: nat)
    requires |vs| == |ts| && n <= |ts| && min <= max && forall k | 0 <= k < |ts| :: vs[k] == Judge(ts[k], min, max)
    ensures n <= j <= |ts| && (forall k | n <= k < j :: vs[k] == Fine) && (j < |ts| ==> vs[j] != Fine)
    ensures FieldVerdict(ts, n, min, max) == if j == |ts| then Fine else vs[j]
    decreases |ts| - n
  {
    j := n;
    if n < |ts| && vs[n] == Fine { j := FirstFault(ts, vs, n + 1, min, max); }
  }

  lemma {:induction false} UnionMeans(es: seq<Expr>, ts: seq<string>, min: int, max: int, bits: nat)
    requires ts == Texts(es) && 0 <= min <= max <= 63 && UnionOf(bits, ts, |ts|, min, max)
    requires forall k | 0 <= k < |es| :: Runs(es[k], min, max)
    ensures forall i: nat :: Bit(bits, i) <==> exists k | 0 <= k < |es| :: Runs(es[k], min, max) && es[k].Means(min, max, i)
  {
    forall i: nat ensures Bit(bits, i) <==> exists k | 0 <= k < |es| :: Runs(es[k], min, max) && es[k].Means(min, max, i) {
      forall k | 0 <= k < |es| ensures Denotes(ts[k], min, max, i) <==> es[k].Means(min, max, i) {
        assert Runs(es[k], min, max);
        ExprMeans(es[k], min, max);
      }
    }
  }

  // ----- every range can be written -----

  function Written(r: Range): string { Itoa(r.start) + "-" + Itoa(r.end) + "/" + Itoa(r.step) }

  lemma {:induction false} PlainNumber(n: nat, c: char)
    requires !IsDigit(c)
    ensures c !in Itoa(n)
  {
  }

  lemma {:induction false} SplitInTwo(a: string, b: string, c: char)
    requires c !in a && c !in b
    ensures SplitOn(a + [c] + b, c) == [a, b]
  {
    assert JoinWith([a, b], c) == a + [c] + b by { assert [a, b][1..] == [b]; }
    SplitExactly(a + [c] + b, c, [a, b]);
  }

  /** Every stepped range within the interval is the meaning of some expression. */
  lemma {:induction false} WrittenRange(r: Range, min: nat, max: int)
    requires r.Within(min, max) && max <= MaxInt
    ensures ParseExpr(Written(r), min, max) == Some(r) && ',' !in Written(r)
  {
    var a, b, n := Itoa(r.start), Itoa(r.end), Itoa(r.step);
    PlainNumber(r.start, '/'); PlainNumber(r.end, '/'); PlainNumber(r.step, '/');
    PlainNumber(r.start, ','); PlainNumber(r.end, ','); PlainNumber(r.step, ',');
    var bounds := a + ['-'] + b;
    SplitInTwo(bounds, n, '/');
    assert Written(r) == bounds + ['/'] + n;
    WrittenBounds(bounds, r, min, max);
    AtoiItoa(r.step);
  }

  lemma {:induction false} WrittenBounds(bounds: string, r: Range, min: nat, max: int)
    requires r.Within(min, max) && max <= MaxInt && bounds == Itoa(r.start) + ['-'] + Itoa(r.end)
    ensures ParseBounds(bounds, r.step, min, max) == Some(r)
  {
    assert bounds != "*" by { assert bounds[|Itoa(r.start)|] == '-'; }
    PlainNumber(r.start, '-'); PlainNumber(r.end, '-');
    SplitInTwo(Itoa(r.start), Itoa(r.end), '-');
    AtoiItoa(r.start); AtoiItoa(r.end);
  }

  function WrittenAll(rs: seq<Range>): (es: seq<string>)
    ensures |es| == |rs|
  {
    seq(|rs|, i requires 0 <= i < |rs| => Written(rs[i]))
  }

  /** Any list of such ranges is a field, which denotes their union. */
  lemma {:induction false} WrittenField(rs: seq<Range>, min: nat, max: int)
    requires rs != [] && min <= max <= MaxInt && forall i | 0 <= i < |rs| :: rs[i].Within(min, max)
    ensures var es := SplitOn(JoinWith(WrittenAll(rs), ','), ',');
      |es| == |rs| && forall i, k | 0 <= i < |rs| && rs[i].Within(min, max) :: Denotes(es[i], min, max, k) <==> Covers(rs[i], k)
  {
    var es := WrittenAll(rs);
    forall i | 0 <= i < |rs| ensures ParseExpr(es[i], min, max) == Some(rs[i]) && ',' !in es[i] && es[i] != "" {
      WrittenRange(rs[i], min, max);
    }
    SplitExactly(JoinWith(es, ','), ',', es);
  }

  /** A step near the largest int is accepted by the parser and then panics. */
  lemma {:induction false} HugeStep(expr: string, step: string)
    requires step == "9223372036854775807" && expr == "5/" + step
    ensures Judge(expr, 0, 59) == Fatal
  {
    LargestInt(step);
    IndexOfFirst(step, '/', |step|);
    IndexOfFirst(expr, '/', 1);
    assert expr[..1] == "5" && expr[2..] == step;
    assert SplitOn(step, '/') == [step];
    assert SplitOn(expr, '/') == ["5", step];
    assert Atoi(step) == Some(MaxInt);
    FiveAlone("5");
  }

  /** Four more digits. */
  lemma {:induction false} FourMore(s: string, a: char, b: char, c: char, d: char)
    requires AllDigits(s) && IsDigit(a) && IsDigit(b) && IsDigit(c) && IsDigit(d)
    ensures AllDigits(s + [a, b, c, d])
    ensures Decimal(s + [a, b, c, d])
      == 10000 * Decimal(s) + 1000 * (a - '0') as nat + 100 * (b - '0') as nat + 10 * (c - '0') as nat + (d - '0') as nat
  {
    var s1, s2, s3, s4 := s + [a], s + [a, b], s + [a, b, c], s + [a, b, c, d];
    assert s4[..|s4| - 1] == s3 && s3[..|s3| - 1] == s2 && s2[..|s2| - 1] == s1 && s1[..|s1| - 1] == s;
    assert Decimal(s1) == 10 * Decimal(s) + (a - '0') as nat;
    assert Decimal(s2) == 10 * Decimal(s1) + (b - '0') as nat;
    assert Decimal(s3) == 10 * Decimal(s2) + (c - '0') as nat;
  }

  lemma {:induction false} LargestInt(s: string)
    requires s == "9223372036854775807"
    ensures AllDigits(s) && Decimal(s) == MaxInt
  {
    assert ['0'] + s == "" + ['0', '9', '2', '2'] + ['3', '3', '7', '2'] + ['0', '3', '6', '8'] + ['5', '4', '7', '7'] + ['5', '8', '0', '7'];
    FourMore("", '0', '9', '2', '2');
    var a: string := "" + ['0', '9', '2', '2'];
    assert Decimal(a) == 922;
    FourMore(a, '3', '3', '7', '2');
    var b := a + ['3', '3', '7', '2'];
    assert Decimal(b) == 922_3372;
    FourMore(b, '0', '3', '6', '8');
    var c := b + ['0', '3', '6', '8'];
    assert Decimal(c) == 922_3372_0368;
    FourMore(c, '5', '4', '7', '7');
    var d := c + ['5', '4', '7', '7'];
    FourMore(d, '5', '8', '0', '7');
    LeadingZero(s);
  }

  lemma {:induction false} LeadingZero(s: string)
    requires AllDigits(s)
    ensures AllDigits(['0'] + s) && Decimal(['0'] + s) == Decimal(s)
  {
    var t := ['0'] + s;
    if s == "" {
      assert t[..0] == "";
    } else {
      LeadingZero(s[..|s| - 1]);
      assert t[..|t| - 1] == ['0'] + s[..|s| - 1];
    }
  }

  lemma {:induction false} FiveAlone(five: string)
    requires five == "5"
    ensures ParseBounds(five, MaxInt, 0, 59) == Some(Range(5, 5, MaxInt))
  {
    IndexOfFirst(five, '-', 1);
    assert SplitOn(five, '-') == [five];
    assert Decimal(five) == 5;
  }
}
