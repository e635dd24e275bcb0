/**
  Path splitting (router.go) and the route table as a list of registrations.
*/
module Paths {
  import opened Trie
  import opened Text

  const MAX_SEGMENTS := 16

  /** The non-empty pieces of a path between slashes. */
  function Split(path: string): seq<string>
    decreases |path|
  {
    if path == "" then []
    else if path[0] == '/' then Split(path[1..])
    else
      var k := IndexOf(path, '/');
      if k == 0 then [] else [path[..k]] + Split(path[k..])
  }

  function Take(segs: seq<string>, n: nat): seq<string> {
    if |segs| <= n then segs else segs[..n]
  }

  /** What the router works on: at most sixteen segments. */
  function Segs(path: string): seq<string> {
    Take(Split(path), MAX_SEGMENTS)
  }

  predicate TrailingSlash(path: string) {
    |path| > 1 && path[|path| - 1] == '/'
  }

  /** A piece that ends at a slash, or at the end. */
  lemma {:induction false} SplitPiece(path: string, start: nat, i: nat)
    requires start <= i <= |path| && (forall k | start <= k < i :: path[k] != '/') && (i < |path| ==> path[i] == '/')
    ensures Split(path[start..]) ==
      (if start < i then [path[start..i]] else []) + Split(if i < |path| then path[i + 1..] else "")
  {
    var p := path[start..];
    IndexOfFirst(p, '/', i - start);
    if i < |path| {
      assert path[i..][1..] == path[i + 1..];
      assert Split(path[i..]) == Split(path[i + 1..]);
    }
    if start < i {
      assert p[..i - start] == path[start..i] && p[i - start..] == path[i..];
    } else if i < |path| {
      assert p == path[i..];
    }
  }

  lemma {:induction false} NextPiece(whole: seq<string>, found: seq<string>, path: string, start: nat, i: nat)
    requires start <= i <= |path| && (forall k | start <= k < i :: path[k] != '/') && (i < |path| ==> path[i] == '/')
    requires whole == found + Split(path[start..])
    ensures var found' := if start < i then found + [path[start..i]] else found;
      whole == found' + Split(if i < |path| then path[i + 1..] else "")
  {
    SplitPiece(path, start, i);
  }

  /** Appends a piece to the sixteen-entry buffer unless it is full. */
  method Store(buf: array<string>, count: nat, piece: string, ghost found: seq<string>) returns (count': nat)
    requires buf.Length == MAX_SEGMENTS && count <= MAX_SEGMENTS && buf[..count] == Take(found, MAX_SEGMENTS)
    modifies buf
    ensures count' <= MAX_SEGMENTS && buf[..count'] == Take(found + [piece], MAX_SEGMENTS)
  {
    count' := count;
    if count < buf.Length {
      buf[count] := piece;
      count' := count + 1;
    }
  }

  /** Ends the piece that began at start: an empty one is dropped. */
  method Cut(path: string, start: nat, i: nat, buf: array<string>, count: nat, ghost whole: seq<string>, ghost found: seq<string>)
    returns (count': nat, ghost found': seq<string>)
    requires start <= i <= |path| && (forall k | start <= k < i :: path[k] != '/') && (i < |path| ==> path[i] == '/')
    requires buf.Length == MAX_SEGMENTS && count <= MAX_SEGMENTS && buf[..count] == Take(found, MAX_SEGMENTS)
    requires whole == found + Split(path[start..])
    modifies buf
    ensures count' <= MAX_SEGMENTS && buf[..count'] == Take(found', MAX_SEGMENTS)
    ensures whole == found' + Split(if i < |path| then path[i + 1..] else "")
  {
    NextPiece(whole, found, path, start, i);
    count', found' := count, found;
    if i > start {
      found' := found + [path[start..i]];
      count' := Store(buf, count, path[start..i], found);
    }
  }

  /** The scanning loop keeps the first sixteen non-empty pieces. */
  method SplitPathBuf(path0: string) returns (segs: seq<string>)
    ensures segs == Segs(path0)
  {
    var path := if HasPrefix(path0, "/") then path0[1..] else path0;
    ghost var whole := Split(path0);
    var buf := new string[MAX_SEGMENTS](i => "");
    var count: nat, start: nat, i: nat := 0, 0, 0;
    ghost var found: seq<string> := [];
    ghost var rest := whole;
    assert rest == Split(path[start..]) by { assert path[0..] == path && Split(path) == whole; }
    while i < |path|
      invariant 0 <= start <= i <= |path| && count <= MAX_SEGMENTS
      invariant forall k | start <= k < i :: path[k] != '/'
      invariant buf[..count] == Take(found, MAX_SEGMENTS)
      invariant whole == found + rest && rest == Split(path[start..])
    {
      if path[i] == '/' {
        count, found := Cut(path, start, i, buf, count, whole, found);
        start := i + 1;
        rest := Split(path[start..]);
      }
      i := i + 1;
    }
    count, found := Cut(path, start, |path|, buf, count, whole, found);
    segs := buf[..count];
  }
}
