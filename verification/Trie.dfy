/**
  The routing trie (router.go): registration, and the backtracking search that
  tries exact children, then parameters, then wildcards.
*/
module Trie {
  import opened Optional
  import opened Text

  type Handler = nat

  datatype Entry = Entry(handler: Handler, pattern: string, trailingSlash: bool)

  /** What a pattern segment is: insertion derives it from the segment's text alone. */
  datatype Kind = Literal | Param(prefix: string, name: string) | Wild(name: string)

  datatype RouteNode = RouteNode(pathSegment: string, kind: Kind, entry: Option<Entry>, children: seq<RouteNode>)

  // ----- segments -----

  predicate HasPrefix(s: string, p: string) {
    |p| <= |s| && s[..|p|] == p
  }

  function Classify(seg: string): Kind {
    if HasPrefix(seg, "*") then Wild(seg[1..])
    else if HasPrefix(seg, "...") then Wild(seg[3..])
    else
      var i := IndexOf(seg, ':');
      if i < |seg| then Param(seg[..i], seg[i + 1..]) else Literal
  }

  function NewNode(seg: string): RouteNode {
    RouteNode(seg, Classify(seg), None, [])
  }

  const Root := RouteNode("", Literal, None, [])

  // ----- insertion -----

  predicate SameKind(a: Kind, b: Kind) {
    a.Wild? == b.Wild? && a.Param? == b.Param?
  }

  /** The first child at or after i that insertion would reuse for seg. */
  function FindChild(children: seq<RouteNode>, seg: string, i: nat): (k: nat)
    requires i <= |children|
    ensures i <= k <= |children|
    ensures k < |children| ==> children[k].pathSegment == seg
    decreases |children| - i
  {
    if i == |children| then i
    else if SameKind(children[i].kind, Classify(seg)) && children[i].pathSegment == seg
    then i
    else FindChild(children, seg, i + 1)
  }

  /** Inserts the pattern ks[d..] below n. */
  function Insert(n: RouteNode, ks: seq<string>, d: nat, e: Entry): RouteNode
    requires d <= |ks|
    decreases |ks| - d
  {
    if d == |ks| then n.(entry := Some(e)) else
      var k := FindChild(n.children, ks[d], 0);
      if k < |n.children| then n.(children := n.children[k := Insert(n.children[k], ks, d + 1, e)])
      else n.(children := n.children + [Insert(NewNode(ks[d]), ks, d + 1, e)])
  }

  /** The entry stored at the end of ks[d..] below n. */
  function EntryAt(n: RouteNode, ks: seq<string>, d: nat): Option<Entry>
    requires d <= |ks|
    decreases |ks| - d
  {
    if d == |ks| then n.entry else
      var k := FindChild(n.children, ks[d], 0);
      if k < |n.children| then EntryAt(n.children[k], ks, d + 1) else None
  }

  predicate Labelled(n: RouteNode) {
    n.kind == Classify(n.pathSegment)
  }

  ghost predicate DistinctSegments(children: seq<RouteNode>) {
    forall i, j | 0 <= i < j < |children| :: children[i].pathSegment != children[j].pathSegment
  }

  /** The shape that insertion keeps: labelled children, no two for one segment, and every
      wildcard child the end of some pattern. */
  ghost predicate WellFormed(n: RouteNode) {
    && DistinctSegments(n.children)
    && forall i | 0 <= i < |n.children| ::
         Labelled(n.children[i]) && WellFormed(n.children[i])
         && (n.children[i].kind.Wild? ==> n.children[i].entry.Some?)
  }

  predicate WildLast(ks: seq<string>) {
    forall i | 0 <= i < |ks| - 1 :: !Classify(ks[i]).Wild?
  }

  ghost predicate SameFrom(ks: seq<string>, qs: seq<string>, d: nat) {
    |ks| == |qs| && forall i | d <= i < |ks| :: ks[i] == qs[i]
  }

  lemma {:induction false} FindChildUnique(children: seq<RouteNode>, seg: string, i: nat, k: nat)
    requires DistinctSegments(children) && i <= k < |children|
    requires Labelled(children[k]) && children[k].pathSegment == seg
    ensures FindChild(children, seg, i) == k
    decreases k - i
  {
    if i < k { FindChildUnique(children, seg, i + 1, k); }
  }

  lemma {:induction false} FindChildNone(children: seq<RouteNode>, seg: string, i: nat)
    requires i <= |children| && forall j | 0 <= j < |children| :: Labelled(children[j])
    ensures FindChild(children, seg, i) == |children| <==> forall j | i <= j < |children| :: children[j].pathSegment != seg
    decreases |children| - i
  {
    if i < |children| { FindChildNone(children, seg, i + 1); }
  }

  lemma {:induction false} InsertWellFormed(n: RouteNode, ks: seq<string>, d: nat, e: Entry)
    requires WellFormed(n) && WildLast(ks) && d <= |ks|
    ensures WellFormed(Insert(n, ks, d, e))
    decreases |ks| - d
  {
    if d < |ks| {
      var k := FindChild(n.children, ks[d], 0);
      FindChildNone(n.children, ks[d], 0);
      var c := if k < |n.children| then n.children[k] else NewNode(ks[d]);
      InsertWellFormed(c, ks, d + 1, e);
      var c' := Insert(c, ks, d + 1, e);
      assert Labelled(c') && (c'.kind.Wild? ==> c'.entry.Some?);
      ReplaceChild(n, k, c');
    }
  }

  /** Putting a good child in place of the k-th, or after the last, keeps the shape. */
  lemma {:induction false} ReplaceChild(n: RouteNode, k: nat, c: RouteNode)
    requires WellFormed(n) && k <= |n.children| && WellFormed(c) && Labelled(c) && (c.kind.Wild? ==> c.entry.Some?)
    requires k < |n.children| ==> n.children[k].pathSegment == c.pathSegment
    requires k == |n.children| ==> forall j | 0 <= j < |n.children| :: n.children[j].pathSegment != c.pathSegment
    ensures k < |n.children| ==> WellFormed(n.(children := n.children[k := c]))
    ensures k == |n.children| ==> WellFormed(n.(children := n.children + [c]))
  {
  }

  /** Insertion changes the entry of its own pattern and of no other. */
  lemma {:induction false} InsertEntry(n: RouteNode, ks: seq<string>, qs: seq<string>, d: nat, e: Entry)
    requires WellFormed(n) && d <= |ks| && d <= |qs|
    ensures EntryAt(Insert(n, ks, d, e), qs, d) == if SameFrom(ks, qs, d) then Some(e) else EntryAt(n, qs, d)
    decreases |ks| - d
  {
    if d < |ks| && d < |qs| {
      if qs[d] == ks[d] {
        InsertSameChild(n, ks, qs, d, e);
        var k := FindChild(n.children, ks[d], 0);
        InsertEntry(if k < |n.children| then n.children[k] else NewNode(ks[d]), ks, qs, d + 1, e);
      } else {
        InsertOtherChild(n, ks, qs, d, e);
      }
    }
  }

  /** Insertion touches one child, whose segment is ks[d]. */
  lemma {:induction false} InsertChildren(n: RouteNode, ks: seq<string>, d: nat, e: Entry)
    requires WellFormed(n) && d < |ks|
    ensures var k := FindChild(n.children, ks[d], 0);
      var cs := Insert(n, ks, d, e).children;
      && k < |cs| && cs[k].pathSegment == ks[d] && Labelled(cs[k])
      && |cs| == (if k < |n.children| then |n.children| else |n.children| + 1)
      && DistinctSegments(cs)
      && forall j | 0 <= j < |cs| && j != k :: j < |n.children| && cs[j] == n.children[j]
  {
    FindChildNone(n.children, ks[d], 0);
    var k := FindChild(n.children, ks[d], 0);
    var c := if k < |n.children| then n.children[k] else NewNode(ks[d]);
    var c' := Insert(c, ks, d + 1, e);
    assert c'.pathSegment == ks[d] && c'.kind == c.kind;
  }

  lemma {:induction false} InsertSameChild(n: RouteNode, ks: seq<string>, qs: seq<string>, d: nat, e: Entry)
    requires WellFormed(n) && d < |ks| && d < |qs| && ks[d] == qs[d]
    ensures var k := FindChild(n.children, ks[d], 0);
      var c := if k < |n.children| then n.children[k] else NewNode(ks[d]);
      && EntryAt(Insert(n, ks, d, e), qs, d) == EntryAt(Insert(c, ks, d + 1, e), qs, d + 1)
      && EntryAt(n, qs, d) == EntryAt(c, qs, d + 1)
  {
    var k := FindChild(n.children, ks[d], 0);
    var c := if k < |n.children| then n.children[k] else NewNode(ks[d]);
    var r := Insert(n, ks, d, e);
    InsertChildren(n, ks, d, e);
    FindChildUnique(r.children, qs[d], 0, k);
  }

  lemma {:induction false} InsertOtherChild(n: RouteNode, ks: seq<string>, qs: seq<string>, d: nat, e: Entry)
    requires WellFormed(n) && d < |ks| && d < |qs| && ks[d] != qs[d]
    ensures EntryAt(Insert(n, ks, d, e), qs, d) == EntryAt(n, qs, d)
  {
    var k := FindChild(n.children, ks[d], 0);
    var r := Insert(n, ks, d, e);
    InsertChildren(n, ks, d, e);
    var j := FindChild(n.children, qs[d], 0);
    FindChildNone(n.children, qs[d], 0);
    if j < |n.children| {
      FindChildUnique(r.children, qs[d], 0, j);
    } else {
      FindChildNone(r.children, qs[d], 0);
    }
  }
}
