/**
  What the router's answers mean for the text of paths and patterns (router.go, server.go): the last
  slash, the redirect to the other spelling, and the text that parameters receive.
*/
module Spelling {
  import opened Optional
  import opened Trie
  import opened TrieSearch
  import opened Paths
  import opened Routes
  import opened Text

  // ----- the last slash -----

  /** A route whose pattern does not end in a wildcard is found under a path only if both end in a
      slash or neither does; a single slash does not count. */
  lemma {:induction false} SlashDecides(regs: seq<Registration>, path: string)
    requires Routable(regs) && Lookup(regs, path).Some?
    ensures var p := Lookup(regs, path).value.pattern;
      EndsWild(Segs(p)) || (|path| > 1 && path[|path| - 1] == '/' <==> |p| > 1 && p[|p| - 1] == '/')
  {
    if path !in StaticOf(regs, |regs|) {
      var ks := TrieRouteSound(regs, path, map[]);
      NoEmptyWildcard(ks, Segs(path), 0);
    }
  }

  lemma {:induction false} NoEmptyWildcard(ks: seq<string>, segs: seq<string>, d: nat)
    requires d <= |ks| && d <= |segs|
    ensures FitsEmpty(ks, segs, d) ==> EndsWild(ks)
    decreases |segs| - d
  {
    if d < |ks| && d < |segs| { NoEmptyWildcard(ks, segs, d + 1); }
  }

  lemma {:induction false} SplitSlash(path: string)
    ensures Split(path + "/") == Split(path)
    decreases |path|
  {
    var long := path + "/";
    if path == "" {
      assert long[1..] == "";
    } else if path[0] == '/' {
      assert long[1..] == path[1..] + "/";
      SplitSlash(path[1..]);
    } else {
      var k := IndexOf(path, '/');
      IndexOfSpec(path, '/');
      forall i | 0 <= i < k ensures long[i] != '/' { assert long[i] == path[i]; }
      IndexOfFirst(long, '/', k);
      assert long[..k] == path[..k] && long[k..] == path[k..] + "/";
      SplitSlash(path[k..]);
    }
  }

  /** Both spellings have the same segments. */
  lemma {:induction false} OtherSegments(path: string)
    ensures Segs(OtherSlash(path)) == Segs(path)
  {
    if path != "" && path[|path| - 1] == '/' {
      var init := path[..|path| - 1];
      assert path == init + "/";
      SplitSlash(init);
    } else {
      SplitSlash(path);
    }
  }

  lemma {:induction false} LiteralFits(ks: seq<string>, segs: seq<string>, d: nat)
    requires d <= |ks| && d <= |segs| && forall i | 0 <= i < |ks| :: Classify(ks[i]).Literal?
    ensures !FitsEmpty(ks, segs, d) && (Fits(ks, segs, d) <==> ks[d..] == segs[d..])
    decreases |ks| - d
  {
    if d < |ks| && d < |segs| {
      LiteralFits(ks, segs, d + 1);
      assert ks[d..] == [ks[d]] + ks[d + 1..] && segs[d..] == [segs[d]] + segs[d + 1..];
    } else if d < |ks| {
      assert |ks[d..]| > 0;
    }
  }

  /** A pattern of literal segments that is registered alone is found under exactly the paths with
      its segments and the same kind of ending. */
  lemma {:induction false} AloneFound(p: string, h: Handler, path: string)
    requires forall i | 0 <= i < |Segs(p)| :: Classify(Segs(p)[i]).Literal?
    ensures var route := Lookup([Registration(p, h)], path);
      if Segs(path) == Segs(p) && (|path| > 1 && path[|path| - 1] == '/' <==> |p| > 1 && p[|p| - 1] == '/')
      then route.Some? && route.value.handler == h && Segs(route.value.pattern) == Segs(p)
      else route == None
  {
    var regs := [Registration(p, h)];
    var ks, segs := Segs(p), Segs(path);
    assert Latest(regs, 1, ks) == Some(EntryOf(regs[0]));
    forall qs | qs != ks ensures Latest(regs, 1, qs) == None { assert Latest(regs, 0, qs) == None; }
    StaticHolds(regs, 1, path);
    LiteralFits(ks, segs, 0);
    assert ks[0..] == ks && segs[0..] == segs;
    assert Routable(regs);
    TrieFindsExactly(regs, path);
    if path in StaticOf(regs, 1) {
      assert regs[0] == Registration(path, StaticOf(regs, 1)[path]);
    } else if TrieRoute(regs, path).Some? {
      var qs := TrieRouteSound(regs, path, map[]);
    } else {
      assert !Serves(regs, ks, path);
    }
  }

  /** Such a pattern is found as it is spelled. With its last slash added or removed it is not,
      except where the ending stays what it was: one slash or none at all, or more than one slash of
      several at the end. */
  lemma {:induction false} OtherSpelling(p: string, h: Handler)
    requires forall i | 0 <= i < |Segs(p)| :: Classify(Segs(p)[i]).Literal?
    ensures Lookup([Registration(p, h)], p) == Some(Route(h, p))
    ensures Lookup([Registration(p, h)], OtherSlash(p)).Some? <==>
      p == "" || p == "/" || (|p| > 2 && p[|p| - 1] == '/' && p[|p| - 2] == '/')
  {
    var regs := [Registration(p, h)];
    AloneFound(p, h, p);
    OtherSegments(p);
    AloneFound(p, h, OtherSlash(p));
    assert Latest(regs, 1, Segs(p)) == Some(EntryOf(regs[0]));
    StaticHolds(regs, 1, p);
    if p in StaticOf(regs, 1) {
      assert regs[0] == Registration(p, StaticOf(regs, 1)[p]);
    } else {
      assert Routable(regs);
      var qs := TrieRouteSound(regs, p, map[]);
    }
  }

  /** The redirect: asked for the other spelling, the server sends the client to the one that is
      registered. */
  lemma {:induction false} SlashRedirects(router: Router, cfg: Config, m: string, p: string, h: Handler, r: Resolution)
    requires forall i | 0 <= i < |Segs(p)| :: Classify(Segs(p)[i]).Literal?
    requires |p| > 1 && !(p[|p| - 1] == '/' && p[|p| - 2] == '/')
    requires router.regs == map[m := [Registration(p, h)]] && cfg.redirectTrailingSlash
    requires var asked := if p[|p| - 1] == '/' then p[..|p| - 1] else p + "/"; Resolved(router, cfg, m, asked, r)
    ensures r == Redirect(p, if m == "GET" || m == "HEAD" then 301 else 307)
  {
    OtherSpelling(p, h);
    BackAgain(p);
    assert router.Regs(m) == [Registration(p, h)];
  }

  lemma {:induction false} BackAgain(p: string)
    requires |p| > 1 && !(p[|p| - 1] == '/' && p[|p| - 2] == '/')
    ensures OtherSlash(OtherSlash(p)) == p && OtherSlash(p) == (if p[|p| - 1] == '/' then p[..|p| - 1] else p + "/")
  {
    var q := OtherSlash(p);
    if p[|p| - 1] == '/' {
      assert q[|q| - 1] == p[|p| - 2] && q + "/" == p;
    } else {
      assert q[|q| - 1] == '/' && q[..|q| - 1] == p;
    }
  }

  // ----- what a pattern segment is -----

  /** A star or three dots make a wildcard, otherwise the first colon a parameter. */
  lemma {:induction false} WildText(name: string)
    ensures Classify("*" + name) == Wild(name) && Classify("..." + name) == Wild(name)
  {
    var s, t := "*" + name, "..." + name;
    assert s[..1] == "*" && s[1..] == name;
    assert t[..3] == "..." && t[3..] == name && t[..1][0] == '.';
  }

  lemma {:induction false} ParamText(prefix: string, name: string)
    requires ':' !in prefix && !HasPrefix(prefix, "*") && !HasPrefix(prefix, "...")
    ensures Classify(prefix + ":" + name) == Param(prefix, name)
  {
    var s, k := prefix + ":" + name, |prefix|;
    forall i | 0 <= i < k ensures s[i] != ':' { assert s[i] == prefix[i]; }
    IndexOfFirst(s, ':', k);
    assert s[..k] == prefix && s[k + 1..] == name && s[k] == ':';
    if k >= 1 { assert s[..1] == prefix[..1]; } else { assert s[..1][0] == ':'; }
    if k >= 3 { assert s[..3] == prefix[..3]; } else if |s| >= 3 { assert s[..3][k] == ':'; }
  }

  lemma {:induction false} LiteralText(s: string)
    requires ':' !in s && !HasPrefix(s, "*") && !HasPrefix(s, "...")
    ensures Classify(s) == Literal
  {
    IndexOfSpec(s, ':');
  }

  // ----- what the parameters hold -----

  /** The parameters that Match leaves, in terms of the text: behind a segment's prefix, the path's
      own segment; behind a wildcard, everything that is left, joined by slashes. */
  lemma {:induction false} ParametersHold(regs: seq<Registration>, path: string, m: Bindings, i: nat, prefix: string, name: string)
    requires Routable(regs) && NamesDistinct(regs, |regs|) && TrieRoute(regs, path).Some?
    requires i < |Segs(TrieRoute(regs, path).value.pattern)|
    ensures var k := Segs(TrieRoute(regs, path).value.pattern)[i];
      var bound := MatchNode(Build(regs, |regs|), Segs(path), 0, TrailingSlash(path), m).params;
      && (k == prefix + ":" + name && ':' !in prefix && !HasPrefix(prefix, "*") && !HasPrefix(prefix, "...") ==>
            i < |Segs(path)| && name in bound && Segs(path)[i] == prefix + bound[name])
      && (k == "*" + name || k == "..." + name ==>
            i <= |Segs(path)| && (i < |Segs(path)| && name != "" ==> name in bound && bound[name] == Join(Segs(path), i)))
  {
    var ks := TrieRouteSound(regs, path, m);
    var k, segs := ks[i], Segs(path);
    WildText(name);
    if ':' !in prefix && !HasPrefix(prefix, "*") && !HasPrefix(prefix, "...") { ParamText(prefix, name); }
    FitsUpTo(ks, segs, 0, i);
  }

  /** A pattern that fits has a segment for each of its own, but for a last wildcard. */
  lemma {:induction false} FitsUpTo(ks: seq<string>, segs: seq<string>, d: nat, i: nat)
    requires d <= i < |ks| && d <= |segs| && (Fits(ks, segs, d) || FitsEmpty(ks, segs, d))
    ensures i <= |segs| && (!Classify(ks[i]).Wild? ==> i < |segs|)
    decreases i - d
  {
    if d < i && d < |segs| && !Classify(ks[d]).Wild? { FitsUpTo(ks, segs, d + 1, i); }
  }

  /** What a wildcard holds splits into the segments it took. */
  lemma {:induction false} JoinSplit(pieces: seq<string>, n: nat)
    requires n <= |pieces| && forall k | 0 <= k < |pieces| :: pieces[k] != "" && '/' !in pieces[k]
    ensures Split(Join(pieces, n)) == pieces[n..]
    decreases |pieces| - n
  {
    if n + 1 == |pieces| {
      var p := pieces[n];
      IndexOfFirst(p, '/', |p|);
      assert p[0] in p && p[..|p|] == p && p[|p|..] == "";
    } else if n < |pieces| {
      var p, rest := pieces[n], Join(pieces, n + 1);
      var s := p + "/" + rest;
      assert p[0] in p && s[0] == p[0];
      forall i | 0 <= i < |p| ensures s[i] != '/' { assert s[i] == p[i] && p[i] in p; }
      IndexOfFirst(s, '/', |p|);
      assert s[..|p|] == p && s[|p|..][1..] == rest;
      JoinSplit(pieces, n + 1);
      assert pieces[n..] == [p] + pieces[n + 1..];
    }
  }

  // ----- which route it is -----

  /** Of all registered patterns that serve the path the trie finds one that every other one loses to
      where they first differ: literal before parameter before wildcard. */
  lemma {:induction false} PreferredRoute(regs: seq<Registration>, path: string, qs: seq<string>)
    requires Routable(regs) && Serves(regs, qs, path)
    ensures TrieRoute(regs, path).Some? && Preferred(Segs(TrieRoute(regs, path).value.pattern), qs, 0)
  {
    BuildCorrect(regs, |regs|);
    var t, segs, ts := Build(regs, |regs|), Segs(path), TrailingSlash(path);
    TrieFindsExactly(regs, path);
    assert Answers(t, qs, segs, 0, ts);
    var ks := Prefers(t, [], qs, segs, 0, ts, map[]);
    LatestHasKey(regs, |regs|, ks);
  }
}
