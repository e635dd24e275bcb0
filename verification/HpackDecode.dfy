/**
  The nibble-driven HPACK Huffman decoder (csrc/hpack_huffman.c): a table with
  one row of sixteen nodes per automaton state, four bits consumed per node.
*/
module HpackDecode {
  import opened Optional
  import opened Words
  import opened HpackHuffman

  function NibbleBits(v: nat): (s: seq<bool>)
    ensures |s| == 4
  {
    HighBits(v, 4, 4)
  }

  function NodeAt(table: seq<Node>, s: nat, v: nat): Node
    requires v < 16 && 16 * s + v < |table|
  {
    table[16 * s + v]
  }

  /** A node tells what reading the nibble v does from the given cursor. */
  ghost predicate Describes(c: Code, node: Node, paths: seq<Cursor>, from: Cursor, v: nat) {
    var w := Feed(c, Walk(from, []), NibbleBits(v), 4);
    && node.fstate < |paths| && paths[node.fstate] == w.cursor
    && w.out == (if Bit(node.flags, SYM) then [node.sym] else [])
    && Bit(node.flags, ACCEPTED) == Accepting(w.cursor)
  }

  /** The table is the nibble closure of the code; paths[s] is the cursor that state s stands for. */
  ghost predicate NibbleClosure(c: Code, table: seq<Node>, paths: seq<Cursor>) {
    && |paths| > 0 && paths[0] == At([]) && |table| == 16 * |paths|
    && forall s: nat, v: nat {:trigger NodeAt(table, s, v)} | s < |paths| && v < 16 ::
         Describes(c, NodeAt(table, s, v), paths, paths[s], v)
  }

  // ----- reading four bits at a time -----

  lemma {:induction false} FeedOut(c: Code, cur: Cursor, out: seq<byte>, bits: seq<bool>, n: nat)
    requires n <= |bits|
    ensures var w := Feed(c, Walk(cur, []), bits, n); Feed(c, Walk(cur, out), bits, n) == Walk(w.cursor, out + w.out)
    decreases n
  {
    if n > 0 {
      FeedOut(c, cur, out, bits, n - 1);
      var w := Feed(c, Walk(cur, []), bits, n - 1);
      NextOut(c, w.cursor, out, w.out, bits[n - 1]);
    }
  }

  lemma {:induction false} NextOut(c: Code, cur: Cursor, out: seq<byte>, more: seq<byte>, b: bool)
    ensures var w := Next(c, Walk(cur, more), b); Next(c, Walk(cur, out + more), b) == Walk(w.cursor, out + w.out)
  {
    if cur.At? && IsCode(c, cur.path + [b]) {
      var s: byte := Next(c, Walk(cur, more), b).out[|more|];
      assert (out + more) + [s] == out + (more + [s]);
    }
  }

  lemma {:induction false} FeedSplit(c: Code, w: Walk, bits: seq<bool>, n: nat, chunk: seq<bool>, k: nat)
    requires k <= |chunk| && n + k <= |bits|
    requires forall i | 0 <= i < k :: bits[n + i] == chunk[i]
    ensures Feed(c, w, bits, n + k) == Feed(c, Feed(c, w, bits, n), chunk, k)
    decreases k
  {
    if k > 0 {
      FeedSplit(c, w, bits, n, chunk, k - 1);
      assert bits[n + (k - 1)] == chunk[k - 1];
    }
  }

  /** One table lookup is four steps of the reference decoder. */
  lemma {:induction false} Lookup(c: Code, table: seq<Node>, paths: seq<Cursor>, bits: seq<bool>, n: nat, s: nat, v: nat)
    requires NibbleClosure(c, table, paths) && s < |paths| && v < 16 && n + 4 <= |bits|
    requires Feed(c, Start, bits, n).cursor == paths[s]
    requires forall i | 0 <= i < 4 :: bits[n + i] == NibbleBits(v)[i]
    ensures var node, w, w' := NodeAt(table, s, v), Feed(c, Start, bits, n), Feed(c, Start, bits, n + 4);
      && node.fstate < |paths| && paths[node.fstate] == w'.cursor
      && w'.out == w.out + (if Bit(node.flags, SYM) then [node.sym] else [])
      && Bit(node.flags, ACCEPTED) == Accepting(w'.cursor)
  {
    var w := Feed(c, Start, bits, n);
    FeedSplit(c, Start, bits, n, NibbleBits(v), 4);
    FeedOut(c, w.cursor, w.out, NibbleBits(v), 4);
    assert Describes(c, NodeAt(table, s, v), paths, paths[s], v);
  }

  /** The two nibbles of a byte, in stream order. */
  lemma {:induction false} NibblesOfByte(src: seq<byte>, i: nat)
    requires i < |src|
    ensures Shr(src[i], 4) < 16 && Trunc(src[i], 4) < 16
    ensures forall k | 0 <= k < 4 :: MsbStream(src)[8 * i + k] == NibbleBits(Shr(src[i], 4))[k]
    ensures forall k | 0 <= k < 4 :: MsbStream(src)[8 * i + 4 + k] == NibbleBits(Trunc(src[i], 4))[k]
  {
    var b := src[i];
    assert Shr(b, 4) < 16 && Trunc(b, 4) < 16 by {
      Pow2Values();
      ShrBound(b, 4, 4);
      TruncBound(b, 4);
    }
    forall k | 0 <= k < 4 ensures MsbStream(src)[8 * i + k] == NibbleBits(Shr(b, 4))[k] { HighNibble(src, i, b, k); }
    forall k | 0 <= k < 4 ensures MsbStream(src)[8 * i + 4 + k] == NibbleBits(Trunc(b, 4))[k] { LowNibble(src, i, b, k); }
  }

  lemma {:induction false} HighNibble(src: seq<byte>, i: nat, b: byte, k: nat)
    requires i < |src| && b == src[i] && k < 4
    ensures MsbStream(src)[8 * i + k] == NibbleBits(Shr(b, 4))[k]
  {
    StreamBit(src, i, k);
    BitShr(b, 4, 3 - k);
  }

  lemma {:induction false} LowNibble(src: seq<byte>, i: nat, b: byte, k: nat)
    requires i < |src| && b == src[i] && k < 4
    ensures MsbStream(src)[8 * i + 4 + k] == NibbleBits(Trunc(b, 4))[k]
  {
    StreamBit(src, i, 4 + k);
    BitTrunc(b, 4, 3 - k);
  }

  lemma {:induction false} StreamBit(src: seq<byte>, i: nat, k: nat)
    requires i < |src| && k < 8
    ensures MsbStream(src)[8 * i + k] == Bit(src[i], 7 - k)
  {
    assert (8 * i + k) / 8 == i && (8 * i + k) % 8 == k;
  }

  lemma {:induction false} IndexIsOr(s: nat, v: nat)
    requires v < 16
    ensures Or(Shl(s, 4), v) == 16 * s + v
  {
    ShlFour(s);
    OrEven(8 * s, v); OrEven(4 * s, v / 2); OrEven(2 * s, v / 4); OrEven(s, v / 8);
    assert v / 2 / 2 == v / 4 && v / 4 / 2 == v / 8 && v / 8 / 2 == 0;
    OrZero(s);
    assert v == v % 2 + 2 * (v / 2 % 2) + 4 * (v / 4 % 2) + 8 * (v / 8 % 2);
  }

  lemma {:induction false} ShlFour(s: nat)
    ensures Shl(s, 4) == 16 * s
  {
    assert Shl(s, 2) == 2 * Shl(s, 1) && Shl(s, 1) == 2 * Shl(s, 0);
    assert Shl(s, 4) == 2 * Shl(s, 3) && Shl(s, 3) == 2 * Shl(s, 2);
  }

  /** At most one symbol per five bits. */
  lemma {:induction false} FeedCount(c: Code, bits: seq<bool>, n: nat)
    requires n <= |bits| && forall s: byte :: |c[s]| >= 5
    ensures var w := Feed(c, Start, bits, n);
      5 * |w.out| + (if w.cursor.At? then |w.cursor.path| else 0) <= n
    decreases n
  {
    if n > 0 { FeedCount(c, bits, n - 1); }
  }

  // ----- the decoder -----

  /** Decodes exactly what the reference decoder accepts; -1 otherwise. */
  method Decode(dest: array<byte>, src: seq<byte>, table: seq<Node>, ghost c: Code, ghost paths: seq<Cursor>)
    returns (r: int)
    requires NibbleClosure(c, table, paths) && forall s: byte :: |c[s]| >= 5
    requires 5 * dest.Length >= 8 * |src|
    modifies dest
    ensures match Reference(c, MsbStream(src))
      case None => r == -1
      case Some(out) => 0 <= r <= dest.Length && dest[..r] == out
  {
    ghost var bits := MsbStream(src);
    var p: nat, fstate: nat, accepted := 0, 0, true;
    for i := 0 to |src|
      invariant p <= dest.Length && fstate < |paths|
      invariant Tracks(c, bits, 8 * i, paths[fstate], dest[..p], accepted)
    {
      var b := src[i];
      NibblesOfByte(src, i);
      p, fstate, accepted := DecodeNibble(dest, p, fstate, Shr(b, 4), table, c, paths, bits, 8 * i);
      p, fstate, accepted := DecodeNibble(dest, p, fstate, Trunc(b, 4), table, c, paths, bits, 8 * i + 4);
    }
    r := if accepted then p else -1;
  }

  /** The decoder's state after n bits is the reference decoder's. */
  ghost predicate Tracks(c: Code, bits: seq<bool>, n: nat, cur: Cursor, out: seq<byte>, accepted: bool)
    requires n <= |bits|
  {
    Feed(c, Start, bits, n) == Walk(cur, out) && accepted == Accepting(cur)
  }

  method DecodeNibble(dest: array<byte>, p0: nat, s: nat, v: nat, table: seq<Node>,
                      ghost c: Code, ghost paths: seq<Cursor>, ghost bits: seq<bool>, ghost n: nat)
    returns (p: nat, fstate: nat, accepted: bool)
    requires NibbleClosure(c, table, paths) && s < |paths| && v < 16 && n + 4 <= |bits| <= 5 * dest.Length
    requires forall s: byte :: |c[s]| >= 5
    requires forall i | 0 <= i < 4 :: bits[n + i] == NibbleBits(v)[i]
    requires p0 <= dest.Length && Feed(c, Start, bits, n) == Walk(paths[s], dest[..p0])
    modifies dest
    ensures p <= dest.Length && fstate < |paths|
    ensures Tracks(c, bits, n + 4, paths[fstate], dest[..p], accepted)
  {
    IndexIsOr(s, v);
    var node := table[Or(Shl(s, 4), v)];
    Lookup(c, table, paths, bits, n, s, v);
    FeedCount(c, bits, n + 4);
    p := p0;
    if Bit(node.flags, SYM) {
      dest[p] := node.sym;
      p := p + 1;
    }
    fstate := node.fstate;
    accepted := Bit(node.flags, ACCEPTED);
  }

  /** Decoding an encoder's output gives back its source. */
  lemma {:induction false} DecodeInvertsEncode(t: Table, src: seq<byte>, wire: seq<byte>)
    requires WellFormed(t) && Usable(CodeOf(t))
    requires var bits := EncodeBits(CodeOf(t), src, |src|);
      && |wire| == (|bits| + 7) / 8
      && MsbStream(wire) == bits + Ones(8 * |wire| - |bits|)
    ensures Reference(CodeOf(t), MsbStream(wire)) == Some(src)
  {
    DecodesEncoded(CodeOf(t), src, 8 * |wire| - |EncodeBits(CodeOf(t), src, |src|)|);
  }

  /** Encode, then decode with any table that closes the same code. */
  method RoundTrip(src: seq<byte>, t: Table, table: seq<Node>, ghost paths: seq<Cursor>) returns (out: seq<byte>)
    requires WellFormed(t) && Usable(CodeOf(t)) && NibbleClosure(CodeOf(t), table, paths)
    ensures out == src
  {
    var count := EncodeCount(src, t);
    var wire := new byte[count];
    var n := Encode(wire, src, t);
    DecodeInvertsEncode(t, src, wire[..n]);
    var plain := new byte[8 * n / 5 + 1];
    var r := Decode(plain, wire[..n], table, CodeOf(t), paths);
    out := plain[..r];
  }

  // ----- such tables exist -----

  /** State 0 is the root, state 1 the dead end, then 30 states per symbol. */
  ghost function AllPaths(c: Code): (paths: seq<Cursor>)
    ensures |paths| == 2 + 256 * 30
  {
    seq(2 + 256 * 30, i requires 0 <= i < 2 + 256 * 30 =>
      if i == 0 then At([]) else if i == 1 then Lost else
        var s, k := (i - 2) / 30, (i - 2) % 30;
        if k < |c[s]| then At(c[s][..k]) else Lost)
  }

  lemma {:induction false} InnerIsAPath(c: Code, p: seq<bool>)
    requires IsInner(c, p) && forall s: byte :: |c[s]| <= 30
    ensures At(p) in AllPaths(c)
  {
    var s: byte :| Inside(p, c[s]);
    var i := 2 + 30 * s + |p|;
    assert (i - 2) / 30 == s && (i - 2) % 30 == |p|;
    assert AllPaths(c)[i] == At(p);
  }

  /** Walking stays among the listed cursors, and four bits finish at most one code. */
  lemma {:induction false} WalkStays(c: Code, from: Cursor, bits: seq<bool>, n: nat)
    requires n <= |bits| && n <= 4 && from in AllPaths(c) && forall s: byte :: 5 <= |c[s]| <= 30
    ensures var w := Feed(c, Walk(from, []), bits, n);
      && w.cursor in AllPaths(c) && |w.out| <= 1
      && (w.out != [] && w.cursor.At? ==> |w.cursor.path| < n)
    decreases n
  {
    if n > 0 {
      WalkStays(c, from, bits, n - 1);
      var u := Feed(c, Walk(from, []), bits, n - 1);
      assert AllPaths(c)[0] == At([]) && AllPaths(c)[1] == Lost;
      if u.cursor.At? && !IsCode(c, u.cursor.path + [bits[n - 1]]) && IsInner(c, u.cursor.path + [bits[n - 1]]) {
        InnerIsAPath(c, u.cursor.path + [bits[n - 1]]);
      }
    }
  }

  ghost function BuildNode(c: Code, s: nat, v: nat): (node: Node)
    requires s < |AllPaths(c)| && v < 16 && forall b: byte :: 5 <= |c[b]| <= 30
    ensures Describes(c, node, AllPaths(c), AllPaths(c)[s], v)
  {
    var paths := AllPaths(c);
    WalkStays(c, paths[s], NibbleBits(v), 4);
    var w := Feed(c, Walk(paths[s], []), NibbleBits(v), 4);
    var i: nat :| i < |paths| && paths[i] == w.cursor;
    var sym, flags := if w.out == [] then 0 else w.out[0], (if Accepting(w.cursor) then 1 else 0) + (if w.out == [] then 0 else 2);
    assert Bit(0, 0) == false && Bit(0, 1) == false && Bit(1, 0) && !Bit(1, 1) && !Bit(2, 0) && Bit(2, 1) && Bit(3, 0) && Bit(3, 1);
    Node(i, flags, sym)
  }

  /** Every code of 5 to 30 bits has a closing table whose states fit the 16-bit state field. */
  lemma {:induction false} ClosureExists(c: Code)
    requires forall s: byte :: 5 <= |c[s]| <= 30
    ensures exists table, paths :: NibbleClosure(c, table, paths) && |paths| < 0x1_0000
  {
    var paths := AllPaths(c);
    var table := seq(16 * |paths|, i requires 0 <= i < 16 * |paths| => BuildNode(c, i / 16, i % 16));
    forall s: nat, v: nat | s < |paths| && v < 16 ensures Describes(c, NodeAt(table, s, v), paths, paths[s], v) {
      assert (16 * s + v) / 16 == s && (16 * s + v) % 16 == v;
    }
    assert NibbleClosure(c, table, paths);
  }
}
