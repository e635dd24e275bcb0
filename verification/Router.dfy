/**
  The router (router.go, server.go): a table of static routes in front of the
  trie, both built from one list of registrations per HTTP method.
*/
module Routes {
  import opened Optional
  import opened PathParams
  import opened Trie
  import opened TrieSearch
  import opened Paths
  import opened Text

  datatype Registration = Registration(pattern: string, handler: Handler)
  datatype Route = Route(handler: Handler, pattern: string)

  function EntryOf(r: Registration): Entry {
    Entry(r.handler, r.pattern, TrailingSlash(r.pattern))
  }

  // ----- the trie of a list of registrations -----

  /** The trie after the first n registrations. */
  function Build(regs: seq<Registration>, n: nat): RouteNode
    requires n <= |regs|
  {
    if n == 0 then Root else Insert(Build(regs, n - 1), Segs(regs[n - 1].pattern), 0, EntryOf(regs[n - 1]))
  }

  /** The last of the first n registrations whose pattern has the segments ks. */
  function Latest(regs: seq<Registration>, n: nat, ks: seq<string>): Option<Entry>
    requires n <= |regs|
  {
    if n == 0 then None
    else if Segs(regs[n - 1].pattern) == ks then Some(EntryOf(regs[n - 1]))
    else Latest(regs, n - 1, ks)
  }

  predicate DistinctNames(ks: seq<string>, d: nat, used: set<string>)
    requires d <= |ks|
    decreases |ks| - d
  {
    d == |ks| ||
    (NamesOf(Classify(ks[d])) !! used && DistinctNames(ks, d + 1, used + NamesOf(Classify(ks[d]))))
  }

  /** Wildcards only in last position. */
  ghost predicate Routable(regs: seq<Registration>) {
    forall i | 0 <= i < |regs| :: WildLast(Segs(regs[i].pattern))
  }

  /** No parameter name twice in a pattern; only what parameters are bound to depends on it. */
  ghost predicate NamesDistinct(regs: seq<Registration>, n: nat)
    requires n <= |regs|
  {
    forall i | 0 <= i < n :: DistinctNames(Segs(regs[i].pattern), 0, {})
  }

  lemma {:induction false} InsertFresh(n: RouteNode, used: set<string>, ks: seq<string>, d: nat, e: Entry)
    requires WellFormed(n) && FreshNames(n, used) && d <= |ks| && DistinctNames(ks, d, used)
    ensures FreshNames(Insert(n, ks, d, e), used)
    decreases |ks| - d
  {
    if d < |ks| {
      var k := FindChild(n.children, ks[d], 0);
      InsertChildren(n, ks, d, e);
      var c := if k < |n.children| then n.children[k] else NewNode(ks[d]);
      assert c.kind == Classify(ks[d]);
      InsertFresh(c, used + NamesOf(c.kind), ks, d + 1, e);
    }
  }

  /** The trie is well-formed and holds, for every pattern, its last registration. */
  lemma {:induction false} BuildCorrect(regs: seq<Registration>, n: nat)
    requires n <= |regs| && Routable(regs)
    ensures var t := Build(regs, n); WellFormed(t) && !t.kind.Wild? && (NamesDistinct(regs, n) ==> FreshNames(t, {}))
    ensures forall ks :: EntryAt(Build(regs, n), ks, 0) == Latest(regs, n, ks)
    decreases n
  {
    if n == 0 {
      forall ks: seq<string> ensures EntryAt(Root, ks, 0) == None { }
    } else {
      BuildCorrect(regs, n - 1);
      var t, r := Build(regs, n - 1), regs[n - 1];
      var key := Segs(r.pattern);
      assert WildLast(Segs(regs[n - 1].pattern));
      InsertWellFormed(t, key, 0, EntryOf(r));
      if NamesDistinct(regs, n) {
        assert DistinctNames(Segs(regs[n - 1].pattern), 0, {});
        InsertFresh(t, {}, key, 0, EntryOf(r));
      }
      forall ks: seq<string> ensures EntryAt(Build(regs, n), ks, 0) == Latest(regs, n, ks) {
        InsertEntry(t, key, ks, 0, EntryOf(r));
        assert SameFrom(key, ks, 0) <==> key == ks;
      }
    }
  }

  lemma {:induction false} LatestHasKey(regs: seq<Registration>, n: nat, ks: seq<string>)
    requires n <= |regs| && Latest(regs, n, ks).Some?
    ensures Segs(Latest(regs, n, ks).value.pattern) == ks
    ensures exists i | 0 <= i < n :: EntryOf(regs[i]) == Latest(regs, n, ks).value
    decreases n
  {
    if Segs(regs[n - 1].pattern) != ks { LatestHasKey(regs, n - 1, ks); }
  }

  // ----- the static table -----

  /** No ':', no '*' and no "..." anywhere. */
  predicate Plain(s: string) {
    && (forall i | 0 <= i < |s| :: s[i] != ':' && s[i] != '*')
    && (forall i {:trigger s[i]} | 0 <= i < |s| - 2 :: !(s[i] == '.' && s[i + 1] == '.' && s[i + 2] == '.'))
  }

  /** The static table after the first n registrations: path to handler. */
  function StaticOf(regs: seq<Registration>, n: nat): map<string, Handler>
    requires n <= |regs|
  {
    if n == 0 then map[]
    else if Plain(regs[n - 1].pattern) then StaticOf(regs, n - 1)[regs[n - 1].pattern := regs[n - 1].handler]
    else StaticOf(regs, n - 1)
  }

  lemma {:induction false} PlainSlice(s: string, a: nat, b: nat)
    requires Plain(s) && a <= b <= |s|
    ensures Plain(s[a..b])
  {
    var t := s[a..b];
    forall i | 0 <= i < |t| - 2 ensures !(t[i] == '.' && t[i + 1] == '.' && t[i + 2] == '.') {
      assert t[i] == s[a + i] && t[i + 1] == s[a + i + 1] && t[i + 2] == s[a + i + 2];
    }
  }

  lemma {:induction false} PlainIsLiteral(s: string)
    requires Plain(s)
    ensures Classify(s).Literal?
  {
    IndexOfSpec(s, ':');
    assert |s| >= 1 ==> s[..1][0] == s[0];
    assert |s| >= 3 ==> s[..3][0] == s[0] && s[..3][1] == s[1] && s[..3][2] == s[2];
  }

  lemma {:induction false} PlainSegments(path: string)
    requires Plain(path)
    ensures forall i | 0 <= i < |Split(path)| :: Classify(Split(path)[i]).Literal?
    decreases |path|
  {
    if path != "" {
      if path[0] == '/' {
        PlainSlice(path, 1, |path|);
        assert path[1..|path|] == path[1..];
        PlainSegments(path[1..]);
      } else {
        var k := IndexOf(path, '/');
        if k > 0 {
          PlainSlice(path, 0, k);
          PlainSlice(path, k, |path|);
          assert path[0..k] == path[..k] && path[k..|path|] == path[k..];
          PlainIsLiteral(path[..k]);
          PlainSegments(path[k..]);
        }
      }
    }
  }

  /** The static table holds exactly the plain patterns, each with the handler of its last registration. */
  lemma {:induction false} StaticHolds(regs: seq<Registration>, n: nat, path: string)
    requires n <= |regs|
    ensures path in StaticOf(regs, n) <==> Plain(path) && exists i | 0 <= i < n :: regs[i].pattern == path
    ensures path in StaticOf(regs, n) ==>
      exists i | 0 <= i < n :: regs[i] == Registration(path, StaticOf(regs, n)[path]) && forall j | i < j < n :: regs[j].pattern != path
    decreases n
  {
    if n > 0 {
      StaticHolds(regs, n - 1, path);
      assert regs[n - 1] == Registration(regs[n - 1].pattern, regs[n - 1].handler);
    }
  }

  /** Against the segments: a static path is registered under them, and if last so, then with its handler. */
  lemma {:induction false} StaticIsLatest(regs: seq<Registration>, n: nat, path: string)
    requires n <= |regs|
    ensures path in StaticOf(regs, n) ==> Plain(path) && Latest(regs, n, Segs(path)).Some?
    ensures Latest(regs, n, Segs(path)).Some? && Latest(regs, n, Segs(path)).value.pattern == path && Plain(path)
      ==> path in StaticOf(regs, n) && StaticOf(regs, n)[path] == Latest(regs, n, Segs(path)).value.handler
    decreases n
  {
    if n > 0 { StaticIsLatest(regs, n - 1, path); }
  }

  // ----- lookup -----

  /** The trie's own answer. */
  function TrieRoute(regs: seq<Registration>, path: string): Option<Route> {
    match MatchNode(Build(regs, |regs|), Segs(path), 0, TrailingSlash(path), map[]).node
    case None => None
    case Some(node) => if node.entry.Some? then Some(Route(node.entry.value.handler, node.entry.value.pattern)) else None
  }

  /** The router's answer: the static table first. */
  function Lookup(regs: seq<Registration>, path: string): Option<Route> {
    if path in StaticOf(regs, |regs|) then Some(Route(StaticOf(regs, |regs|)[path], path)) else TrieRoute(regs, path)
  }

  /** Stated on the list alone: ks is registered last by some pattern that fits the path. */
  ghost predicate Serves(regs: seq<Registration>, ks: seq<string>, path: string) {
    match Latest(regs, |regs|, ks)
    case None => false
    case Some(e) =>
      || (Fits(ks, Segs(path), 0) && (EndsWild(ks) || e.trailingSlash == TrailingSlash(path)))
      || (FitsEmpty(ks, Segs(path), 0) && |Segs(path)| <= |ks| && Latest(regs, |regs|, ks[..|Segs(path)|]) == None)
  }

  /** The trie finds a route exactly when some registered pattern serves the path. */
  lemma {:induction false} TrieFindsExactly(regs: seq<Registration>, path: string)
    requires Routable(regs)
    ensures TrieRoute(regs, path).Some? <==> exists ks :: Serves(regs, ks, path)
  {
    BuildCorrect(regs, |regs|);
    var t, segs, ts := Build(regs, |regs|), Segs(path), TrailingSlash(path);
    if MatchNode(t, segs, 0, ts, map[]).node.Some? {
      var ks := Sound(t, false, {}, [], segs, 0, ts, map[]);
      assert Serves(regs, ks, path);
    }
    if ks :| Serves(regs, ks, path) {
      assert Answers(t, ks, segs, 0, ts);
      Complete(t, ks, segs, 0, ts, map[]);
      var _ := Sound(t, false, {}, [], segs, 0, ts, map[]);
    }
  }

  /** What the trie returns was registered, is the last with its segments and serves the path; if
      names are distinct its parameters hold the path's own text. */
  lemma {:induction false} TrieRouteSound(regs: seq<Registration>, path: string, m: Bindings) returns (ks: seq<string>)
    requires Routable(regs) && TrieRoute(regs, path).Some?
    ensures var route := TrieRoute(regs, path).value;
      && Serves(regs, ks, path) && ks == Segs(route.pattern)
      && Latest(regs, |regs|, ks) == Some(EntryOf(Registration(route.pattern, route.handler)))
      && (exists i | 0 <= i < |regs| :: regs[i] == Registration(route.pattern, route.handler))
    ensures NamesDistinct(regs, |regs|) ==>
      Bound(ks, Segs(path), 0, MatchNode(Build(regs, |regs|), Segs(path), 0, TrailingSlash(path), m).params)
  {
    BuildCorrect(regs, |regs|);
    var t, segs, ts := Build(regs, |regs|), Segs(path), TrailingSlash(path);
    NodeSame(t, segs, 0, ts, map[], m);
    ks := Sound(t, NamesDistinct(regs, |regs|), {}, [], segs, 0, ts, m);
    LatestHasKey(regs, |regs|, ks);
    var i :| 0 <= i < |regs| && EntryOf(regs[i]) == Latest(regs, |regs|, ks).value;
    assert regs[i] == Registration(regs[i].pattern, regs[i].handler);
  }

  /** A static hit is what the trie alone would return exactly when no later registration took
      the same segments under another spelling (a slash more or less, a doubled slash). */
  lemma {:induction false} StaticAgrees(regs: seq<Registration>, path: string)
    requires Routable(regs) && path in StaticOf(regs, |regs|)
    ensures Latest(regs, |regs|, Segs(path)).Some?
    ensures TrieRoute(regs, path) == Lookup(regs, path) <==> Latest(regs, |regs|, Segs(path)).value.pattern == path
  {
    StaticIsLatest(regs, |regs|, path);
    BuildCorrect(regs, |regs|);
    var t, segs, ts := Build(regs, |regs|), Segs(path), TrailingSlash(path);
    PlainSegments(path);
    if Latest(regs, |regs|, segs).value.pattern == path {
      LatestHasKey(regs, |regs|, segs);
      ExactWins(t, segs, 0, ts, map[]);
    } else if TrieRoute(regs, path) == Lookup(regs, path) {
      var ks := TrieRouteSound(regs, path, map[]);
    }
  }

  // ----- paths longer than the segment buffer -----

  lemma {:induction false} SplitAppend(path: string, piece: string)
    requires piece != "" && forall i | 0 <= i < |piece| :: piece[i] != '/'
    ensures Split(path + "/" + piece) == Split(path) + [piece]
    decreases |path|
  {
    var long := path + "/" + piece;
    if path == "" {
      assert long[1..] == piece;
      IndexOfFirst(piece, '/', |piece|);
      assert piece[..|piece|] == piece && piece[|piece|..] == "";
    } else if path[0] == '/' {
      assert long[1..] == path[1..] + "/" + piece;
      SplitAppend(path[1..], piece);
    } else {
      var k := IndexOf(path, '/');
      IndexOfSpec(path, '/');
      forall i | 0 <= i < k ensures long[i] != '/' { assert long[i] == path[i]; }
      IndexOfFirst(long, '/', k);
      assert long[..k] == path[..k] && long[k..] == path[k..] + "/" + piece;
      SplitAppend(path[k..], piece);
    }
  }

  /** Beyond sixteen segments the router no longer sees the path: any further segment is
      accepted by whatever serves the first sixteen. Up to sixteen it sees all of it. */
  lemma {:induction false} SegmentsCutAtSixteen(path: string, piece: string)
    requires piece != "" && forall i | 0 <= i < |piece| :: piece[i] != '/'
    ensures Segs(path + "/" + piece) == Split(path + "/" + piece) <==> |Split(path)| < MAX_SEGMENTS
    ensures |Split(path)| >= MAX_SEGMENTS ==> Segs(path + "/" + piece) == Segs(path)
  {
    SplitAppend(path, piece);
  }

  // ----- the search as it runs, writing into the parameters -----

  /** matchNode: the node and the parameters are those of MatchNode. */
  method SearchInto(n: RouteNode, segs: seq<string>, d: nat, ts: bool, p: Params) returns (r: Option<RouteNode>)
    requires d <= |segs| && p.Valid()
    modifies p`count, p`extra, p.slots
    ensures p.Valid() && Outcome(r, p.View()) == MatchNode(n, segs, d, ts, old(p.View()))
    decreases |segs| - d, 1
  {
    var cs := n.children;
    if d == |segs| {
      if n.entry.Some? {
        return if n.kind.Wild? || n.entry.value.trailingSlash == ts then Some(n) else None;
      }
      return FirstWild(cs, 0);
    }
    r := ExactInto(cs, segs, d, ts, p);
    if r.Some? { return; }
    r := ParamInto(cs, segs, d, ts, p);
    if r.Some? { return; }
    r := WildInto(cs, segs, d, p);
  }

  /** The last of the three loops: the first wildcard child takes what is left of the path. */
  method WildInto(cs: seq<RouteNode>, segs: seq<string>, d: nat, p: Params) returns (r: Option<RouteNode>)
    requires d < |segs| && p.Valid()
    modifies p`count, p`extra, p.slots
    ensures p.Valid() && Outcome(r, p.View()) == TryWild(cs, 0, segs, d, old(p.View()))
    decreases |segs| - d, 0
  {
    ghost var m := p.View();
    var i := 0;
    while i < |cs|
      invariant 0 <= i <= |cs| && p.Valid() && p.View() == m
      invariant TryWild(cs, 0, segs, d, m) == TryWild(cs, i, segs, d, m)
    {
      if cs[i].kind.Wild? {
        if cs[i].kind.name != "" { p.Set(cs[i].kind.name, Join(segs, d)); }
        return Some(cs[i]);
      }
      i := i + 1;
    }
    return None;
  }

  /** The second loop: parameter children whose prefix fits, each bound before it is searched. */
  method ParamInto(cs: seq<RouteNode>, segs: seq<string>, d: nat, ts: bool, p: Params) returns (r: Option<RouteNode>)
    requires d < |segs| && p.Valid()
    modifies p`count, p`extra, p.slots
    ensures p.Valid() && Outcome(r, p.View()) == TryParam(cs, 0, segs, d, ts, old(p.View()))
    decreases |segs| - d, 0
  {
    ghost var m := p.View();
    var i := 0;
    while i < |cs|
      invariant 0 <= i <= |cs| && p.Valid()
      invariant TryParam(cs, 0, segs, d, ts, m) == TryParam(cs, i, segs, d, ts, p.View())
    {
      if cs[i].kind.Param? && HasPrefix(segs[d], cs[i].kind.prefix) {
        p.Set(cs[i].kind.name, segs[d][|cs[i].kind.prefix|..]);
        r := SearchInto(cs[i], segs, d + 1, ts, p);
        if r.Some? { return; }
      }
      i := i + 1;
    }
    return None;
  }

  /** The first loop: literal children with the segment's own text. */
  method ExactInto(cs: seq<RouteNode>, segs: seq<string>, d: nat, ts: bool, p: Params) returns (r: Option<RouteNode>)
    requires d < |segs| && p.Valid()
    modifies p`count, p`extra, p.slots
    ensures p.Valid() && Outcome(r, p.View()) == TryExact(cs, 0, segs, d, ts, old(p.View()))
    decreases |segs| - d, 0
  {
    ghost var m := p.View();
    var i := 0;
    while i < |cs|
      invariant 0 <= i <= |cs| && p.Valid()
      invariant TryExact(cs, 0, segs, d, ts, m) == TryExact(cs, i, segs, d, ts, p.View())
    {
      if cs[i].kind.Literal? && cs[i].pathSegment == segs[d] {
        r := SearchInto(cs[i], segs, d + 1, ts, p);
        if r.Some? { return; }
      }
      i := i + 1;
    }
    return None;
  }

  // ----- the router object -----

  /** The tries and the static tables are those of the registrations. */
  ghost predicate Consistent(routes: map<string, RouteNode>, statics: map<string, map<string, Handler>>,
                             regs: map<string, seq<Registration>>)
  {
    && routes.Keys == regs.Keys && statics.Keys <= regs.Keys
    && (forall m | m in regs :: routes[m] == Build(regs[m], |regs[m]|))
    && (forall m | m in statics :: statics[m] == StaticOf(regs[m], |regs[m]|))
    && (forall m | m in regs && m !in statics :: StaticOf(regs[m], |regs[m]|) == map[])
  }

  /** One method's trie, table and list are replaced together. */
  lemma {:induction false} ReplaceMethod(routes: map<string, RouteNode>, statics: map<string, map<string, Handler>>,
                                         regs: map<string, seq<Registration>>, m: string, list: seq<Registration>, plain: bool)
    requires Consistent(routes, statics, regs)
    requires !plain ==> StaticOf(list, |list|) == (if m in statics then statics[m] else map[])
    ensures Consistent(routes[m := Build(list, |list|)],
                       if plain then statics[m := StaticOf(list, |list|)] else statics, regs[m := list])
  {
  }

  class Router {
    var routes: map<string, RouteNode>
    var staticRoutes: map<string, map<string, Handler>>
    /** What was registered, per method, in order. */
    ghost var regs: map<string, seq<Registration>>

    ghost predicate Valid()
      reads this
    {
      Consistent(routes, staticRoutes, regs)
    }

    ghost function Regs(m: string): seq<Registration>
      reads this
    {
      if m in regs then regs[m] else []
    }

    /** The specification of Match. */
    ghost function Answer(m: string, path: string): Option<Route>
      reads this
    {
      Lookup(Regs(m), path)
    }

    constructor ()
      ensures Valid() && regs == map[]
    {
      routes, staticRoutes, regs := map[], map[], map[];
    }

    method Add(m: string, pattern: string, handler: Handler)
      requires Valid()
      modifies this
      ensures Valid() && regs == old(regs)[m := old(Regs(m)) + [Registration(pattern, handler)]]
    {
      ghost var list := Regs(m) + [Registration(pattern, handler)];
      AppendRegistration(Regs(m), Registration(pattern, handler));
      assert Build([], 0) == Root && StaticOf([], 0) == map[];
      ReplaceMethod(routes, staticRoutes, regs, m, list, Plain(pattern));
      if Plain(pattern) {
        var table := if m in staticRoutes then staticRoutes[m] else map[];
        staticRoutes := staticRoutes[m := table[pattern := handler]];
      }
      var root := if m in routes then routes[m] else Root;
      var segs := SplitPathBuf(pattern);
      routes := routes[m := Insert(root, segs, 0, EntryOf(Registration(pattern, handler)))];
      regs := regs[m := list];
    }

    /** Match without parameters, as the slash and Allow lookups use it. */
    method Resolves(m: string, path: string) returns (b: bool)
      requires Valid()
      ensures b == Answer(m, path).Some?
    {
      if m in staticRoutes && path in staticRoutes[m] { return true; }
      if m !in routes { NothingRegistered(path); return false; }
      var segs := SplitPathBuf(path);
      var node := MatchNode(routes[m], segs, 0, TrailingSlash(path), map[]).node;
      b := node.Some? && node.value.entry.Some?;
    }

    method Match(m: string, path: string, p: Params) returns (r: Option<Route>)
      requires Valid() && p.Valid()
      modifies p`count, p`extra, p.slots
      ensures p.Valid() && r == Answer(m, path)
      ensures p.View() == if path in StaticOf(Regs(m), |Regs(m)|) || m !in regs then old(p.View())
        else MatchNode(Build(regs[m], |regs[m]|), Segs(path), 0, TrailingSlash(path), old(p.View())).params
    {
      if m in staticRoutes && path in staticRoutes[m] { return Some(Route(staticRoutes[m][path], path)); }
      if m !in routes { NothingRegistered(path); return None; }
      var segs := SplitPathBuf(path);
      NodeSame(routes[m], segs, 0, TrailingSlash(path), map[], p.View());
      var node := SearchInto(routes[m], segs, 0, TrailingSlash(path), p);
      r := if node.Some? && node.value.entry.Some? then Some(Route(node.value.entry.value.handler, node.value.entry.value.pattern)) else None;
    }

    method FindTrailingSlash(m: string, path: string) returns (alt: Option<string>)
      requires Valid()
      ensures var other := if path != "" && path[|path| - 1] == '/' then path[..|path| - 1] else path + "/";
        alt == if Answer(m, other).Some? then Some(other) else None
    {
      var other := if path != "" && path[|path| - 1] == '/' then path[..|path| - 1] else path + "/";
      var b := Resolves(m, other);
      alt := if b then Some(other) else None;
    }

    /** A path without static route, looked up in one trie. */
    method InTrie(m: string, path: string, segs: seq<string>) returns (b: bool)
      requires Valid() && m in routes && segs == Segs(path) && !(m in staticRoutes && path in staticRoutes[m])
      ensures b == Answer(m, path).Some?
    {
      var node := MatchNode(routes[m], segs, 0, TrailingSlash(path), map[]).node;
      b := node.Some? && node.value.entry.Some?;
    }

    method StaticMethods(path: string) returns (allowed: seq<string>)
      ensures forall m :: m in allowed <==> m in staticRoutes && path in staticRoutes[m]
      ensures forall i, j | 0 <= i < j < |allowed| :: allowed[i] != allowed[j]
    {
      allowed := [];
      var todo := staticRoutes.Keys;
      while todo != {}
        invariant todo <= staticRoutes.Keys
        invariant forall m :: m in allowed <==> m in staticRoutes && m !in todo && path in staticRoutes[m]
        invariant forall i, j | 0 <= i < j < |allowed| :: allowed[i] != allowed[j]
        decreases todo
      {
        var m :| m in todo;
        todo := todo - {m};
        if path in staticRoutes[m] { allowed := allowed + [m]; }
      }
    }

    /** Every method that would match, once, in order: static hits, then the tries of the rest. */
    method AllowedMethods(path: string) returns (allowed: seq<string>)
      requires Valid()
      ensures forall m :: m in allowed <==> m in regs && Answer(m, path).Some?
      ensures Increasing(allowed)
    {
      allowed := StaticMethods(path);
      var segs := SplitPathBuf(path);
      var todo := routes.Keys;
      while todo != {}
        invariant todo <= routes.Keys
        invariant forall m :: m in allowed <==>
          m in routes && Answer(m, path).Some? && (m !in todo || (m in staticRoutes && path in staticRoutes[m]))
        invariant forall i, j | 0 <= i < j < |allowed| :: allowed[i] != allowed[j]
        decreases todo
      {
        var m :| m in todo;
        todo := todo - {m};
        if m !in allowed {
          var b := InTrie(m, path, segs);
          if b { allowed := allowed + [m]; }
        }
      }
      allowed := SortNames(allowed);
    }

    method HasPath(path: string) returns (b: bool)
      requires Valid()
      ensures b == exists m | m in regs :: Answer(m, path).Some?
    {
      var todo := staticRoutes.Keys;
      while todo != {}
        invariant todo <= staticRoutes.Keys && forall m | m in staticRoutes && m !in todo :: path !in staticRoutes[m]
        decreases todo
      {
        var m :| m in todo;
        todo := todo - {m};
        if path in staticRoutes[m] {
          assert Answer(m, path).Some?;
          return true;
        }
      }
      var segs := SplitPathBuf(path);
      todo := routes.Keys;
      while todo != {}
        invariant todo <= routes.Keys && forall m | m in routes && m !in todo :: !Answer(m, path).Some?
        decreases todo
      {
        var m :| m in todo;
        todo := todo - {m};
        var found := InTrie(m, path, segs);
        if found {
          assert Answer(m, path).Some?;
          return true;
        }
      }
      return false;
    }
  }

  // ----- the server's use of it -----

  datatype Config = Config(redirectTrailingSlash: bool, handleMethodNotAllowed: bool)

  datatype Resolution =
    | Found(route: Route)
    | Redirect(target: string, code: nat)
    | Preflight
    | NotAllowed(allow: seq<string>)
    | NotFound

  /** The other spelling of a path's last slash. */
  function OtherSlash(path: string): string {
    if path != "" && path[|path| - 1] == '/' then path[..|path| - 1] else path + "/"
  }

  /** Some method is registered for the path. */
  ghost predicate Known(router: Router, path: string)
    reads router
  {
    exists o | o in router.regs :: router.Answer(o, path).Some?
  }

  /** The path itself is not matched, nor redirected. */
  ghost predicate NoRoute(router: Router, cfg: Config, m: string, path: string)
    reads router
  {
    router.Answer(m, path) == None && (cfg.redirectTrailingSlash ==> router.Answer(m, OtherSlash(path)) == None)
  }

  /** What resolveRoute answers, in terms of what the router matches. */
  ghost predicate Resolved(router: Router, cfg: Config, m: string, path: string, r: Resolution)
    reads router
  {
    match r
    case Found(route) => router.Answer(m, path) == Some(route)
    case Redirect(target, code) =>
      && cfg.redirectTrailingSlash && router.Answer(m, path) == None
      && target == OtherSlash(path) && router.Answer(m, target).Some?
      && code == (if m == "GET" || m == "HEAD" then 301 else 307)
    case Preflight => NoRoute(router, cfg, m, path) && m == "OPTIONS" && Known(router, path)
    case NotAllowed(allow) =>
      && NoRoute(router, cfg, m, path) && m != "OPTIONS" && cfg.handleMethodNotAllowed
      && allow != [] && (forall o :: o in allow <==> o in router.regs && router.Answer(o, path).Some?)
      && Increasing(allow)
    case NotFound =>
      NoRoute(router, cfg, m, path) && (m == "OPTIONS" || cfg.handleMethodNotAllowed ==> !Known(router, path))
  }

  /** These cases exclude one another and leave nothing open. */
  lemma {:induction false} ResolvedOnce(router: Router, cfg: Config, m: string, path: string, r: Resolution, s: Resolution)
    requires Resolved(router, cfg, m, path, r) && Resolved(router, cfg, m, path, s)
    ensures r == s
  {
    if r.NotAllowed? { assert r.allow[0] in r.allow; }
    if s.NotAllowed? { assert s.allow[0] in s.allow; }
    if r.NotAllowed? && s.NotAllowed? { IncreasingUnique(r.allow, s.allow); }
  }

  method ResolveRoute(router: Router, cfg: Config, m: string, path: string, p: Params) returns (r: Resolution)
    requires router.Valid() && p.Valid()
    modifies p`count, p`extra, p.slots
    ensures p.Valid() && Resolved(router, cfg, m, path, r)
  {
    var route := router.Match(m, path, p);
    if route.Some? { return Found(route.value); }
    if cfg.redirectTrailingSlash {
      var alt := router.FindTrailingSlash(m, path);
      if alt.Some? { return Redirect(alt.value, if m != "GET" && m != "HEAD" then 307 else 301); }
    }
    if m == "OPTIONS" {
      var has := router.HasPath(path);
      if has { return Preflight; }
    }
    if cfg.handleMethodNotAllowed {
      var allowed := router.AllowedMethods(path);
      if |allowed| > 0 {
        assert allowed[0] in allowed;
        return NotAllowed(allowed);
      }
      assert forall o | o in router.regs :: o !in allowed;
    }
    return NotFound;
  }

  /** Following a redirect ends there: its target is found, so redirects never chain or loop. */
  lemma {:induction false} RedirectsEnd(router: Router, cfg: Config, m: string, path: string, r: Resolution, r': Resolution)
    requires Resolved(router, cfg, m, path, r) && r.Redirect?
    requires Resolved(router, cfg, m, r.target, r')
    ensures r'.Found?
  {
  }

  lemma {:induction false} AppendRegistration(regs: seq<Registration>, r: Registration)
    ensures Build(regs + [r], |regs + [r]|) == Insert(Build(regs, |regs|), Segs(r.pattern), 0, EntryOf(r))
    ensures StaticOf(regs + [r], |regs + [r]|)
         == if Plain(r.pattern) then StaticOf(regs, |regs|)[r.pattern := r.handler] else StaticOf(regs, |regs|)
  {
    BuildPrefix(regs, r, |regs|);
    StaticPrefix(regs, r, |regs|);
  }

  lemma {:induction false} NothingRegistered(path: string)
    ensures Lookup([], path) == None
  {
    assert Build([], 0) == Root && StaticOf([], 0) == map[];
    BareNode(Root, Segs(path), TrailingSlash(path), map[]);
  }

  lemma {:induction false} BareNode(n: RouteNode, segs: seq<string>, ts: bool, m: Bindings)
    requires n.children == [] && n.entry.None?
    ensures MatchNode(n, segs, 0, ts, m) == Outcome(None, m)
  {
    if segs == [] {
      assert FirstWild(n.children, 0) == None;
    } else {
      assert TryExact(n.children, 0, segs, 0, ts, m) == Outcome(None, m);
      assert TryParam(n.children, 0, segs, 0, ts, m) == Outcome(None, m);
      assert TryWild(n.children, 0, segs, 0, m) == Outcome(None, m);
    }
  }

  lemma {:induction false} BuildPrefix(regs: seq<Registration>, r: Registration, n: nat)
    requires n <= |regs|
    ensures Build(regs + [r], n) == Build(regs, n)
    decreases n
  {
    if n > 0 { BuildPrefix(regs, r, n - 1); }
  }

  lemma {:induction false} StaticPrefix(regs: seq<Registration>, r: Registration, n: nat)
    requires n <= |regs|
    ensures StaticOf(regs + [r], n) == StaticOf(regs, n)
    decreases n
  {
    if n > 0 { StaticPrefix(regs, r, n - 1); }
  }
}
