/**
  Strings as the modelled packages use them.

  Searching, splitting and decimal numbers follow Go's strings and strconv packages: splitting
  keeps empty pieces, a decimal number may have a sign and leading zeros, and a number that does
  not fit a 64-bit integer is an error. A string is a sequence of characters; nothing here
  depends on an encoding.
*/
module Text {
  import opened Optional

  /** Index of the first c, or the length. */
  function IndexOf(s: string, c: char): (i: nat)
    ensures i <= |s|
  {
    if s == "" || s[0] == c then 0 else 1 + IndexOf(s[1..], c)
  }

  lemma {:induction false} IndexOfSpec(s: string, c: char)
    ensures forall i | 0 <= i < IndexOf(s, c) :: s[i] != c
    ensures IndexOf(s, c) < |s| ==> s[IndexOf(s, c)] == c
  {
    if s != "" && s[0] != c {
      IndexOfSpec(s[1..], c);
      forall i | 0 <= i < IndexOf(s, c) ensures s[i] != c { if i > 0 { assert s[i] == s[1..][i - 1]; } }
    }
  }

  lemma {:induction false} IndexOfFirst(s: string, c: char, k: nat)
    requires k <= |s| && (forall i | 0 <= i < k :: s[i] != c) && (k < |s| ==> s[k] == c)
    ensures IndexOf(s, c) == k
    decreases |s|
  {
    if s != "" && k > 0 { IndexOfFirst(s[1..], c, k - 1); }
  }

  /** strings.Split: the pieces between the separators, empty ones included. */
  function SplitOn(s: string, c: char): (pieces: seq<string>)
    ensures |pieces| >= 1
    decreases |s|
  {
    var i := IndexOf(s, c);
    if i == |s| then [s] else [s[..i]] + SplitOn(s[i + 1..], c)
  }

  function JoinWith(pieces: seq<string>, c: char): string {
    if |pieces| == 0 then "" else if |pieces| == 1 then pieces[0] else pieces[0] + [c] + JoinWith(pieces[1..], c)
  }

  lemma {:induction false} SplitJoin(s: string, c: char)
    ensures JoinWith(SplitOn(s, c), c) == s
    ensures forall k | 0 <= k < |SplitOn(s, c)| :: c !in SplitOn(s, c)[k]
    decreases |s|
  {
    var i := IndexOf(s, c);
    IndexOfSpec(s, c);
    if i < |s| {
      SplitJoin(s[i + 1..], c);
      assert s == s[..i] + [c] + s[i + 1..];
    }
  }

  /** The pieces are the only ones without the separator that join to the string. */
  lemma {:induction false} SplitExactly(s: string, c: char, pieces: seq<string>)
    ensures SplitOn(s, c) == pieces <==>
      pieces != [] && JoinWith(pieces, c) == s && forall k | 0 <= k < |pieces| :: c !in pieces[k]
    decreases |pieces|
  {
    SplitJoin(s, c);
    if pieces != [] && JoinWith(pieces, c) == s && forall k | 0 <= k < |pieces| :: c !in pieces[k] {
      var first := pieces[0];
      assert c !in first;
      if |pieces| == 1 {
        IndexOfFirst(s, c, |s|);
      } else {
        var rest := JoinWith(pieces[1..], c);
        assert s == first + [c] + rest;
        IndexOfFirst(s, c, |first|);
        assert s[..|first|] == first && s[|first| + 1..] == rest;
        SplitExactly(rest, c, pieces[1..]);
      }
    }
  }

  // ----- order -----

  /** Go's < on strings: the first difference decides, a prefix comes first. */
  predicate Less(a: string, b: string) {
    b != "" && (a == "" || a[0] < b[0] || (a[0] == b[0] && Less(a[1..], b[1..])))
  }

  lemma {:induction false} LessOrder(a: string, b: string)
    ensures !(Less(a, b) && Less(b, a)) && (a == b ==> !Less(a, b)) && (a != b ==> Less(a, b) || Less(b, a))
  {
    if a != "" && b != "" {
      assert a == [a[0]] + a[1..] && b == [b[0]] + b[1..];
      LessOrder(a[1..], b[1..]);
    }
  }

  lemma {:induction false} LessTransitive(a: string, b: string, c: string)
    requires Less(a, b) && Less(b, c)
    ensures Less(a, c)
  {
    if a != "" && a[0] == b[0] == c[0] { LessTransitive(a[1..], b[1..], c[1..]); }
  }

  /** Strictly increasing, so without repetition. */
  ghost predicate Increasing(names: seq<string>) {
    forall i, j | 0 <= i < j < |names| :: Less(names[i], names[j])
  }

  /** Puts x before the first name that is not less. */
  function InsertName(names: seq<string>, x: string): (r: seq<string>)
    ensures forall n :: n in r <==> n in names || n == x
  {
    if names == [] then [x]
    else if Less(names[0], x) then [names[0]] + InsertName(names[1..], x)
    else [x] + names
  }

  lemma {:induction false} InsertIncreasing(names: seq<string>, x: string)
    requires Increasing(names) && x !in names
    ensures Increasing(InsertName(names, x))
  {
    if names != [] {
      var first, rest := names[0], names[1..];
      LessOrder(first, x);
      if Less(first, x) {
        InsertIncreasing(rest, x);
        var r := InsertName(rest, x);
        forall j | 0 <= j < |r| ensures Less(first, r[j]) { assert r[j] in r; }
      } else {
        forall j | 0 <= j < |names| ensures Less(x, names[j]) {
          if j > 0 { LessTransitive(x, first, names[j]); }
        }
      }
    }
  }

  /** slices.Sort, of names that are all different. */
  method SortNames(names: seq<string>) returns (r: seq<string>)
    requires forall i, j | 0 <= i < j < |names| :: names[i] != names[j]
    ensures Increasing(r) && forall n :: n in r <==> n in names
  {
    r := [];
    for i := 0 to |names|
      invariant Increasing(r) && forall n :: n in r <==> n in names[..i]
    {
      assert names[i] !in names[..i];
      InsertIncreasing(r, names[i]);
      r := InsertName(r, names[i]);
      assert names[..i + 1] == names[..i] + [names[i]];
    }
    assert names[..|names|] == names;
  }

  /** Increasing lists of the same names are the same list. */
  lemma {:induction false} IncreasingUnique(a: seq<string>, b: seq<string>)
    requires Increasing(a) && Increasing(b) && forall n :: n in a <==> n in b
    ensures a == b
  {
    assert (a != [] ==> a[0] in a) && (b != [] ==> b[0] in b);
    if a != [] && b != [] {
      FirstIsLeast(a, b);
      FirstIsLeast(b, a);
      LessOrder(a[0], b[0]);
      var x := a[0];
      assert a == [x] + a[1..] && b == [x] + b[1..];
      LessOrder(x, x);
      forall n ensures n in a[1..] <==> n in b[1..] {
        assert n in a <==> n == x || n in a[1..];
        assert n in b <==> n == x || n in b[1..];
      }
      IncreasingUnique(a[1..], b[1..]);
    }
  }

  lemma {:induction false} FirstIsLeast(a: seq<string>, b: seq<string>)
    requires Increasing(b) && a != [] && b != [] && a[0] in b
    ensures a[0] == b[0] || Less(b[0], a[0])
  {
    var j :| 0 <= j < |b| && b[j] == a[0];
  }

  // ----- decimal numbers -----

  predicate IsDigit(c: char) { '0' <= c <= '9' }

  predicate AllDigits(s: string) { forall i | 0 <= i < |s| :: IsDigit(s[i]) }

  function Decimal(s: string): (n: nat)
    requires AllDigits(s)
  {
    if s == "" then 0 else 10 * Decimal(s[..|s| - 1]) + (s[|s| - 1] - '0') as nat
  }

  const MaxInt := 0x7fff_ffff_ffff_ffff

  /** strconv.Atoi with 64-bit int: an optional sign, digits, in range. */
  function Atoi(s: string): (r: Option<int>)
    ensures r.Some? ==> -MaxInt - 1 <= r.value <= MaxInt
  {
    var negative := s != "" && s[0] == '-';
    var digits := if s != "" && (s[0] == '-' || s[0] == '+') then s[1..] else s;
    if digits == "" || !AllDigits(digits) then None else
      var n: int := Decimal(digits);
      var v := if negative then -n else n;
      if -MaxInt - 1 <= v <= MaxInt then Some(v) else None
  }

  function DigitChar(d: nat): char
    requires d < 10
  {
    '0' + d as char
  }

  /** Decimal digits without leading zeros. */
  function Digits(n: nat): (s: string)
    ensures s != "" && AllDigits(s)
  {
    if n < 10 then [DigitChar(n)] else Digits(n / 10) + [DigitChar(n % 10)]
  }

  /** strconv.Itoa and FormatInt. */
  function Itoa(n: int): (s: string)
    ensures s != ""
  {
    if n < 0 then "-" + Digits(-n) else Digits(n)
  }

  lemma {:induction false} DecimalDigits(n: nat)
    ensures Decimal(Digits(n)) == n
  {
    var s := Digits(n);
    if n < 10 {
      assert s[..0] == "";
    } else {
      DecimalDigits(n / 10);
      assert s[..|s| - 1] == Digits(n / 10);
    }
  }

  /** Every number is read back, unless it is beyond 64 bits. */
  lemma {:induction false} AtoiItoa(n: int)
    ensures Atoi(Itoa(n)) == if -MaxInt - 1 <= n <= MaxInt then Some(n) else None
  {
    if n < 0 {
      AtoiNegative(Digits(-n), -n);
    } else {
      DecimalDigits(n);
      assert IsDigit(Digits(n)[0]);
    }
  }

  lemma {:induction false} AtoiNegative(digits: string, n: int)
    requires n > 0 && digits == Digits(n)
    ensures Atoi("-" + digits) == if n <= MaxInt + 1 then Some(-n) else None
  {
    DecimalDigits(n);
    var s := "-" + digits;
    assert s[0] == '-' && s[1..] == digits;
  }

  /** Length of the leading run of digits. */
  function DigitRun(s: string): (k: nat)
    ensures k <= |s| && AllDigits(s[..k]) && (k < |s| ==> !IsDigit(s[k]))
  {
    if s == "" || !IsDigit(s[0]) then 0 else 1 + DigitRun(s[1..])
  }

  lemma {:induction false} DigitRunIs(s: string, k: nat)
    requires k <= |s| && AllDigits(s[..k]) && (k < |s| ==> !IsDigit(s[k]))
    ensures DigitRun(s) == k
    decreases |s|
  {
    if k > 0 {
      assert s[..k][0] == s[0];
      assert s[1..][..k - 1] == s[..k][1..];
      DigitRunIs(s[1..], k - 1);
    }
  }
}
