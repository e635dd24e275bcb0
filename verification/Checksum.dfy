/**
  The Internet checksum as the tunnel computes it (tunnel/masque/bridge.go,
  tunnel/masque/icmp.go).

  A 32-bit accumulator of big-endian 16-bit words, folded into 16 bits and complemented.
  Folding keeps the residue modulo 65535, so everything is said in terms of that residue; the
  wraps that a 32-bit accumulator loses are accounted for.
*/
module Checksum {
  import opened Words

  const TwoTo32: nat := 0x1_0000_0000

  /** The big-endian word at i. */
  function Word(p: seq<byte>, i: nat): (w: nat)
    requires i + 2 <= |p|
    ensures w < 0x1_0000
  {
    p[i] as int * 256 + p[i + 1] as int
  }

  /** Sum of the first k words from offset h. */
  function WordSum(p: seq<byte>, h: nat, k: nat): nat
    requires h + 2 * k <= |p|
    decreases k, p, h
  {
    if k == 0 then 0 else WordSum(p, h, k - 1) + Word(p, h + 2 * (k - 1))
  }

  /** A trailing odd byte counts as the high half of a last word. */
  function OddByte(p: seq<byte>, h: nat): nat
    requires h <= |p|
  {
    if (|p| - h) % 2 == 1 then p[|p| - 1] as int * 256 else 0
  }

  /** Sum of everything from offset h to the end. */
  function TailSum(p: seq<byte>, h: nat): nat
    requires h <= |p|
  {
    WordSum(p, h, (|p| - h) / 2) + OddByte(p, h)
  }

  /** One's complement fold to 16 bits: end-around carries until none is left. */
  function Fold(x: nat): (r: nat)
    ensures r < 0x1_0000
  {
    if x < 0x1_0000 then x else Fold(x % 0x1_0000 + x / 0x1_0000)
  }

  /** What is stored: the complement of the folded 32-bit accumulator. */
  function Complement(sum: nat): (c: nat)
    ensures c < 0x1_0000
  {
    0xffff - Fold(sum % TwoTo32)
  }

  /** Receivers accept when everything, checksum included, folds to all ones. */
  predicate Accepts(sum: nat) { Fold(sum) == 0xffff }

  // ----- folding is reduction modulo 65535, with all ones standing for zero -----

  lemma {:induction false} CarryKeepsResidue(x: nat)
    ensures (x % 0x1_0000 + x / 0x1_0000) % 0xffff == x % 0xffff
  {
    var q, r := x / 0x1_0000, x % 0x1_0000;
    assert x == 0xffff * q + (q + r);
  }

  lemma {:induction false} FoldResidue(x: nat)
    ensures Fold(x) % 0xffff == x % 0xffff
    ensures Fold(x) == 0 <==> x == 0
  {
    if x >= 0x1_0000 {
      FoldResidue(x % 0x1_0000 + x / 0x1_0000);
      CarryKeepsResidue(x);
    }
  }

  lemma {:induction false} AcceptsExactly(x: nat)
    ensures Accepts(x) <==> x > 0 && x % 0xffff == 0
  {
    FoldResidue(x);
  }

  /** The stored checksum completes the accumulator to a multiple of 65535. */
  lemma {:induction false} ComplementCompletes(sum: nat)
    ensures (sum % TwoTo32 + Complement(sum)) % 0xffff == 0
    ensures sum % TwoTo32 + Complement(sum) > 0
    ensures (sum + Complement(sum)) % 0xffff == (sum / TwoTo32) % 0xffff
    ensures (sum + 2 * Complement(sum)) % 0xffff == (sum / TwoTo32 + Complement(sum)) % 0xffff
  {
    var low, carry, c := sum % TwoTo32, sum / TwoTo32, Complement(sum);
    FoldResidue(low);
    Residues(low, Fold(low), c);
    Discard(sum, low, carry, c);
    Discard(sum + c, low, carry, c);
  }

  lemma {:induction false} Residues(low: nat, f: nat, c: nat)
    requires f < 0x1_0000 && c == 0xffff - f && f % 0xffff == low % 0xffff && (f == 0 <==> low == 0)
    ensures (low + c) % 0xffff == 0 && low + c > 0
  {
    var q := low / 0xffff;
    assert low == 0xffff * q + low % 0xffff;
  }

  /** 2^32 is 1 modulo 65535: each lost wrap of the accumulator costs one. */
  lemma {:induction false} Discard(x: nat, low: nat, carry: nat, c: nat)
    requires x >= TwoTo32 * carry + low && (low + c) % 0xffff == 0
    ensures (x + c) % 0xffff == (carry + (x - TwoTo32 * carry - low)) % 0xffff
  {
    var q := (low + c) / 0xffff;
    var extra := x - TwoTo32 * carry - low;
    assert x + c == 0xffff * (0x1_0001 * carry + q) + (carry + extra);
    ModPlus(0x1_0001 * carry + q, carry + extra);
  }

  lemma {:induction false} ModPlus(q: nat, r: nat)
    ensures (0xffff * q + r) % 0xffff == r % 0xffff
  {
  }

  // ----- sums under changes of one word -----

  /** Two strings that agree except in word j of the sum. */
  ghost predicate DifferInWord(p: seq<byte>, q: seq<byte>, at: nat) {
    |p| == |q| && at + 2 <= |p| && forall i | 0 <= i < |p| && i != at && i != at + 1 :: p[i] == q[i]
  }

  lemma {:induction false} WordSumSame(p: seq<byte>, q: seq<byte>, h: nat, k: nat)
    requires |p| == |q| && h + 2 * k <= |p| && p[h..h + 2 * k] == q[h..h + 2 * k]
    ensures WordSum(p, h, k) == WordSum(q, h, k)
  {
    if k > 0 {
      var i := h + 2 * (k - 1);
      assert p[i] == p[h..h + 2 * k][i - h] && p[i + 1] == p[h..h + 2 * k][i + 1 - h];
      assert q[i] == q[h..h + 2 * k][i - h] && q[i + 1] == q[h..h + 2 * k][i + 1 - h];
      assert p[h..i] == p[h..h + 2 * k][..i - h] && q[h..i] == q[h..h + 2 * k][..i - h];
      WordSumSame(p, q, h, k - 1);
    }
  }

  lemma {:induction false} WordSumChange(p: seq<byte>, q: seq<byte>, h: nat, k: nat, j: nat)
    requires j < k && h + 2 * k <= |p| && DifferInWord(p, q, h + 2 * j)
    ensures WordSum(q, h, k) == WordSum(p, h, k) - Word(p, h + 2 * j) + Word(q, h + 2 * j)
    decreases k
  {
    if j < k - 1 {
      WordSumChange(p, q, h, k - 1, j);
    } else {
      WordSumSame(p, q, h, k - 1);
    }
  }

  /** Filling a zero checksum word inside the tail adds just that word. */
  lemma {:induction false} TailSumFill(p: seq<byte>, q: seq<byte>, h: nat, j: nat)
    requires h + 2 * j + 2 <= |p| && DifferInWord(p, q, h + 2 * j) && Word(p, h + 2 * j) == 0
    ensures TailSum(q, h) == TailSum(p, h) + Word(q, h + 2 * j)
  {
    WordSumChange(p, q, h, (|p| - h) / 2, j);
  }

  lemma {:induction false} WordSumBound(p: seq<byte>, h: nat, k: nat)
    requires h + 2 * k <= |p|
    ensures WordSum(p, h, k) <= 0xffff * k
  {
    if k > 0 { WordSumBound(p, h, k - 1); }
  }

  lemma {:induction false} TailSumBound(p: seq<byte>, h: nat)
    requires h <= |p|
    ensures TailSum(p, h) <= 0xffff * ((|p| - h + 1) / 2)
  {
    WordSumBound(p, h, (|p| - h) / 2);
  }

  // ----- the loops -----

  /** The carry loop at the end of each checksum. */
  method FoldSum(start: nat) returns (c: nat)
    requires start < TwoTo32
    ensures c == 0xffff - Fold(start)
  {
    var sum := start;
    while sum / 0x1_0000 != 0
      invariant 0 <= sum < TwoTo32 && Fold(sum) == Fold(start)
      decreases sum
    {
      sum := sum % 0x1_0000 + sum / 0x1_0000;
    }
    c := 0xffff - sum;
  }

  /** Adds every word from h on, and the odd byte, to a 32-bit accumulator. */
  method SumTail(b: seq<byte>, h: nat, start: nat) returns (sum: nat)
    requires h <= |b| && start < TwoTo32
    ensures sum == (start + TailSum(b, h)) % TwoTo32
  {
    sum := start;
    var i := 0;
    while i < |b| - h - 1
      invariant 0 <= i <= |b| - h && i % 2 == 0
      invariant sum == (start + WordSum(b, h, i / 2)) % TwoTo32
    {
      WrapAdd(start + WordSum(b, h, i / 2), Word(b, h + i));
      sum := (sum + Word(b, h + i)) % TwoTo32;
      i := i + 2;
    }
    if (|b| - h) % 2 == 1 {
      WrapAdd(start + WordSum(b, h, i / 2), b[|b| - 1] as int * 256);
      sum := (sum + b[|b| - 1] as int * 256) % TwoTo32;
    }
  }

  lemma {:induction false} WrapAdd(x: nat, y: nat)
    ensures (x % TwoTo32 + y) % TwoTo32 == (x + y) % TwoTo32
  {
  }

  method CalculateInternetChecksum(b: seq<byte>) returns (c: nat)
    ensures c == Complement(TailSum(b, 0)) && c < 0x1_0000
  {
    var sum := SumTail(b, 0, 0);
    c := FoldSum(sum);
  }

  /** A checksum computed with its field zero and stored at an even offset is accepted, for any
      message short enough not to wrap the accumulator. */
  lemma {:induction false} StoredChecksumAccepted(zeroed: seq<byte>, stored: seq<byte>, pseudo: nat, j: nat)
    requires 2 * j + 2 <= |zeroed| <= 0x1_0000 && pseudo < 0x20_0000 && DifferInWord(zeroed, stored, 2 * j)
    requires Word(zeroed, 2 * j) == 0 && Word(stored, 2 * j) == Complement(pseudo + TailSum(zeroed, 0))
    ensures Accepts(pseudo + TailSum(stored, 0))
  {
    TailSumFill(zeroed, stored, 0, j);
    TailSumBound(zeroed, 0);
    ComplementCompletes(pseudo + TailSum(zeroed, 0));
    AcceptsExactly(pseudo + TailSum(stored, 0));
  }
}
