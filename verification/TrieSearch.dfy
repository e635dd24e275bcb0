/**
  The trie's backtracking search (router.go): what it finds, what it misses, and
  what it leaves in the parameters.
*/
module TrieSearch {
  import opened Optional
  import opened Trie

  type Bindings = map<string, string>

  /** The node found, and the parameters as the search left them. */
  datatype Outcome = Outcome(node: Option<RouteNode>, params: Bindings)

  function Join(segs: seq<string>, d: nat): string
    requires d <= |segs|
    decreases |segs| - d
  {
    if d == |segs| then "" else if d + 1 == |segs| then segs[d] else segs[d] + "/" + Join(segs, d + 1)
  }

  /** The search from n for segs[d..]; ts says whether the path ends in a slash. */
  function MatchNode(n: RouteNode, segs: seq<string>, d: nat, ts: bool, m: Bindings): Outcome
    requires d <= |segs|
    decreases |segs| - d, 2, 0
  {
    if d == |segs| then
      if n.entry.Some? then
        if n.kind.Wild? || n.entry.value.trailingSlash == ts then Outcome(Some(n), m) else Outcome(None, m)
      else Outcome(FirstWild(n.children, 0), m)
    else
      var exact := TryExact(n.children, 0, segs, d, ts, m);
      if exact.node.Some? then exact else
        var param := TryParam(n.children, 0, segs, d, ts, exact.params);
        if param.node.Some? then param else TryWild(n.children, 0, segs, d, param.params)
  }

  /** A wildcard child with a handler, for a path that ends here. */
  function FirstWild(cs: seq<RouteNode>, i: nat): Option<RouteNode>
    requires i <= |cs|
    decreases |cs| - i
  {
    if i == |cs| then None
    else if cs[i].kind.Wild? && cs[i].entry.Some? then Some(cs[i])
    else FirstWild(cs, i + 1)
  }

  function TryExact(cs: seq<RouteNode>, i: nat, segs: seq<string>, d: nat, ts: bool, m: Bindings): Outcome
    requires i <= |cs| && d < |segs|
    decreases |segs| - d, 1, |cs| - i
  {
    if i == |cs| then Outcome(None, m)
    else if cs[i].kind.Literal? && cs[i].pathSegment == segs[d] then
      var r := MatchNode(cs[i], segs, d + 1, ts, m);
      if r.node.Some? then r else TryExact(cs, i + 1, segs, d, ts, r.params)
    else TryExact(cs, i + 1, segs, d, ts, m)
  }

  function TryParam(cs: seq<RouteNode>, i: nat, segs: seq<string>, d: nat, ts: bool, m: Bindings): Outcome
    requires i <= |cs| && d < |segs|
    decreases |segs| - d, 1, |cs| - i
  {
    if i == |cs| then Outcome(None, m)
    else if cs[i].kind.Param? && HasPrefix(segs[d], cs[i].kind.prefix) then
      var bound := m[cs[i].kind.name := segs[d][|cs[i].kind.prefix|..]];
      var r := MatchNode(cs[i], segs, d + 1, ts, bound);
      if r.node.Some? then r else TryParam(cs, i + 1, segs, d, ts, r.params)
    else TryParam(cs, i + 1, segs, d, ts, m)
  }

  function TryWild(cs: seq<RouteNode>, i: nat, segs: seq<string>, d: nat, m: Bindings): Outcome
    requires i <= |cs| && d < |segs|
    decreases |cs| - i
  {
    if i == |cs| then Outcome(None, m)
    else if cs[i].kind.Wild? then
      Outcome(Some(cs[i]), if cs[i].kind.name != "" then m[cs[i].kind.name := Join(segs, d)] else m)
    else TryWild(cs, i + 1, segs, d, m)
  }

  // ----- what it should find -----

  /** One pattern segment against one path segment. */
  predicate SegFits(k: string, s: string) {
    match Classify(k)
    case Literal => k == s
    case Param(prefix, _) => HasPrefix(s, prefix)
    case Wild(_) => false
  }

  /** The pattern ks[d..] fits the path segs[d..]; a wildcard takes at least one segment. */
  predicate Fits(ks: seq<string>, segs: seq<string>, d: nat)
    requires d <= |ks| && d <= |segs|
    decreases |ks| - d
  {
    if d == |ks| then d == |segs|
    else if d == |segs| then false
    else if Classify(ks[d]).Wild? then d + 1 == |ks|
    else SegFits(ks[d], segs[d]) && Fits(ks, segs, d + 1)
  }

  /** The pattern fits up to a last wildcard, for which no segment is left. */
  predicate FitsEmpty(ks: seq<string>, segs: seq<string>, d: nat)
    requires d <= |ks| && d <= |segs|
    decreases |segs| - d
  {
    if d == |ks| then false
    else if d == |segs| then d + 1 == |ks| && Classify(ks[d]).Wild?
    else SegFits(ks[d], segs[d]) && FitsEmpty(ks, segs, d + 1)
  }

  predicate EndsWild(ks: seq<string>) {
    |ks| > 0 && Classify(ks[|ks| - 1]).Wild?
  }

  /** Pattern ks answers the path: it fits and agrees on the trailing slash, or it ends in a
      wildcard matching nothing at a place where no pattern ends. */
  ghost predicate Answers(n: RouteNode, ks: seq<string>, segs: seq<string>, d: nat, ts: bool)
    requires d <= |ks| && d <= |segs|
  {
    match EntryAt(n, ks, d)
    case None => false
    case Some(e) =>
      || (Fits(ks, segs, d) && (EndsWild(ks) || e.trailingSlash == ts))
      || (FitsEmpty(ks, segs, d) && |segs| <= |ks| && EntryAt(n, ks[..|segs|], d) == None)
  }

  /** Each parameter of ks[d..] is bound to its own part of the path. */
  ghost predicate Bound(ks: seq<string>, segs: seq<string>, d: nat, m: Bindings) {
    forall i {:trigger ks[i]} | d <= i < |ks| && i < |segs| ::
      match Classify(ks[i])
      case Literal => true
      case Param(prefix, name) => HasPrefix(segs[i], prefix) && name in m && m[name] == segs[i][|prefix|..]
      case Wild(name) => name != "" ==> name in m && m[name] == Join(segs, i)
  }

  function NamesOf(k: Kind): set<string> {
    match k
    case Literal => {}
    case Param(_, name) => {name}
    case Wild(name) => if name == "" then {} else {name}
  }

  /** No name of `used` is bound again below n, and no path below n binds a name twice. */
  ghost predicate FreshNames(n: RouteNode, used: set<string>) {
    forall i | 0 <= i < |n.children| ::
      NamesOf(n.children[i].kind) !! used && FreshNames(n.children[i], used + NamesOf(n.children[i].kind))
  }

  ghost predicate Agree(a: Bindings, b: Bindings, used: set<string>) {
    forall x | x in used :: (x in a <==> x in b) && (x in a ==> a[x] == b[x])
  }

  // ----- the search does not disturb names bound above -----

  lemma {:induction false} Keeps(n: RouteNode, used: set<string>, segs: seq<string>, d: nat, ts: bool, m: Bindings)
    requires FreshNames(n, used) && d <= |segs|
    ensures Agree(m, MatchNode(n, segs, d, ts, m).params, used)
    decreases |segs| - d, 2, 0
  {
    if d < |segs| {
      KeepsExact(n, 0, used, segs, d, ts, m);
      var m1 := TryExact(n.children, 0, segs, d, ts, m).params;
      KeepsParam(n, 0, used, segs, d, ts, m1);
      var m2 := TryParam(n.children, 0, segs, d, ts, m1).params;
      KeepsWild(n, 0, used, segs, d, m2);
    }
  }

  lemma {:induction false} KeepsExact(n: RouteNode, i: nat, used: set<string>, segs: seq<string>, d: nat, ts: bool, m: Bindings)
    requires FreshNames(n, used) && i <= |n.children| && d < |segs|
    ensures Agree(m, TryExact(n.children, i, segs, d, ts, m).params, used)
    decreases |segs| - d, 1, |n.children| - i
  {
    if i < |n.children| {
      var c := n.children[i];
      if c.kind.Literal? && c.pathSegment == segs[d] {
        Keeps(c, used + NamesOf(c.kind), segs, d + 1, ts, m);
        KeepsExact(n, i + 1, used, segs, d, ts, MatchNode(c, segs, d + 1, ts, m).params);
      } else {
        KeepsExact(n, i + 1, used, segs, d, ts, m);
      }
    }
  }

  lemma {:induction false} KeepsParam(n: RouteNode, i: nat, used: set<string>, segs: seq<string>, d: nat, ts: bool, m: Bindings)
    requires FreshNames(n, used) && i <= |n.children| && d < |segs|
    ensures Agree(m, TryParam(n.children, i, segs, d, ts, m).params, used)
    decreases |segs| - d, 1, |n.children| - i
  {
    if i < |n.children| {
      var c := n.children[i];
      if c.kind.Param? && HasPrefix(segs[d], c.kind.prefix) {
        var bound := m[c.kind.name := segs[d][|c.kind.prefix|..]];
        Keeps(c, used + NamesOf(c.kind), segs, d + 1, ts, bound);
        KeepsParam(n, i + 1, used, segs, d, ts, MatchNode(c, segs, d + 1, ts, bound).params);
      } else {
        KeepsParam(n, i + 1, used, segs, d, ts, m);
      }
    }
  }

  lemma {:induction false} KeepsWild(n: RouteNode, i: nat, used: set<string>, segs: seq<string>, d: nat, m: Bindings)
    requires FreshNames(n, used) && i <= |n.children| && d < |segs|
    ensures Agree(m, TryWild(n.children, i, segs, d, m).params, used)
    decreases |n.children| - i
  {
    if i < |n.children| && !n.children[i].kind.Wild? { KeepsWild(n, i + 1, used, segs, d, m); }
  }

  // ----- what the search may leave behind -----

  /** Below n some pattern that fits segs[d..] up to there binds name to v. */
  ghost predicate Tries(n: RouteNode, segs: seq<string>, d: nat, name: string, v: string)
    requires d <= |segs|
    decreases |segs| - d
  {
    d < |segs| && exists i | 0 <= i < |n.children| :: TriesBy(n.children[i], segs, d, name, v)
  }

  ghost predicate TriesBy(c: RouteNode, segs: seq<string>, d: nat, name: string, v: string)
    requires d < |segs|
    decreases |segs| - d, 0
  {
    match c.kind
    case Literal => c.pathSegment == segs[d] && Tries(c, segs, d + 1, name, v)
    case Param(prefix, p) =>
      HasPrefix(segs[d], prefix) && ((p == name && v == segs[d][|prefix|..]) || Tries(c, segs, d + 1, name, v))
    case Wild(w) => w == name && w != "" && v == Join(segs, d)
  }

  /** From m to r nothing is unbound, and what is new was tried. */
  ghost predicate Leaves(n: RouteNode, segs: seq<string>, d: nat, m: Bindings, r: Bindings)
    requires d <= |segs|
  {
    m.Keys <= r.Keys && forall x | x in r :: (x in m && r[x] == m[x]) || Tries(n, segs, d, x, r[x])
  }

  /** A matching child may leave what it tried itself. */
  lemma {:induction false} LeavesVia(n: RouteNode, i: nat, segs: seq<string>, d: nat, m: Bindings, bound: Bindings, r: Bindings)
    requires i < |n.children| && d < |segs| && Leaves(n.children[i], segs, d + 1, bound, r)
    requires var c := n.children[i];
      || (c.kind.Literal? && c.pathSegment == segs[d] && bound == m)
      || (c.kind.Param? && HasPrefix(segs[d], c.kind.prefix) && bound == m[c.kind.name := segs[d][|c.kind.prefix|..]])
    ensures Leaves(n, segs, d, m, r)
  {
    var c := n.children[i];
    forall x | x in r ensures (x in m && r[x] == m[x]) || Tries(n, segs, d, x, r[x]) {
      if !(x in m && r[x] == m[x]) { assert TriesBy(c, segs, d, x, r[x]); }
    }
  }

  /** Whatever extra names the search leaves bound, each is a parameter of a pattern that fits the
      path as far as the parameter, bound to its own part of the path. */
  lemma {:induction false} Leftovers(n: RouteNode, segs: seq<string>, d: nat, ts: bool, m: Bindings)
    requires d <= |segs|
    ensures Leaves(n, segs, d, m, MatchNode(n, segs, d, ts, m).params)
    decreases |segs| - d, 2, 0
  {
    if d < |segs| {
      LeftoversExact(n, 0, segs, d, ts, m);
      var m1 := TryExact(n.children, 0, segs, d, ts, m).params;
      LeftoversParam(n, 0, segs, d, ts, m1);
      var m2 := TryParam(n.children, 0, segs, d, ts, m1).params;
      LeftoversWild(n, 0, segs, d, m2);
    }
  }

  lemma {:induction false} LeftoversExact(n: RouteNode, i: nat, segs: seq<string>, d: nat, ts: bool, m: Bindings)
    requires i <= |n.children| && d < |segs|
    ensures Leaves(n, segs, d, m, TryExact(n.children, i, segs, d, ts, m).params)
    decreases |segs| - d, 1, |n.children| - i
  {
    if i < |n.children| {
      var c := n.children[i];
      if c.kind.Literal? && c.pathSegment == segs[d] {
        var r := MatchNode(c, segs, d + 1, ts, m).params;
        Leftovers(c, segs, d + 1, ts, m);
        LeavesVia(n, i, segs, d, m, m, r);
        LeftoversExact(n, i + 1, segs, d, ts, r);
      } else {
        LeftoversExact(n, i + 1, segs, d, ts, m);
      }
    }
  }

  lemma {:induction false} LeftoversParam(n: RouteNode, i: nat, segs: seq<string>, d: nat, ts: bool, m: Bindings)
    requires i <= |n.children| && d < |segs|
    ensures Leaves(n, segs, d, m, TryParam(n.children, i, segs, d, ts, m).params)
    decreases |segs| - d, 1, |n.children| - i
  {
    if i < |n.children| {
      var c := n.children[i];
      if c.kind.Param? && HasPrefix(segs[d], c.kind.prefix) {
        var bound := m[c.kind.name := segs[d][|c.kind.prefix|..]];
        var r := MatchNode(c, segs, d + 1, ts, bound).params;
        Leftovers(c, segs, d + 1, ts, bound);
        LeavesVia(n, i, segs, d, m, bound, r);
        LeftoversParam(n, i + 1, segs, d, ts, r);
      } else {
        LeftoversParam(n, i + 1, segs, d, ts, m);
      }
    }
  }

  lemma {:induction false} LeftoversWild(n: RouteNode, i: nat, segs: seq<string>, d: nat, m: Bindings)
    requires i <= |n.children| && d < |segs|
    ensures Leaves(n, segs, d, m, TryWild(n.children, i, segs, d, m).params)
    decreases |n.children| - i
  {
    if i < |n.children| {
      if n.children[i].kind.Wild? {
        assert n.children[i].kind.name != "" ==> TriesBy(n.children[i], segs, d, n.children[i].kind.name, Join(segs, d));
      } else {
        LeftoversWild(n, i + 1, segs, d, m);
      }
    }
  }

  /** Such names do remain: with a pattern of a parameter and a literal, and a wildcard beside it, a
      path of two segments that misses the literal is served by the wildcard, the parameter bound. */
  lemma {:induction false} LeftBehind(param: string, x: string, wild: string, s1: string, s2: string, e: Entry, w: Entry, ts: bool)
    requires Classify(param).Param? && Classify(param).prefix == "" && Classify(x).Literal? && Classify(wild).Wild?
    requires Classify(wild).name != Classify(param).name && s2 != x
    ensures var root := Insert(Insert(Root, [param, x], 0, e), [wild], 0, w);
      var r := MatchNode(root, [s1, s2], 0, ts, map[]);
      && r.node.Some? && r.node.value.entry == Some(w)
      && Classify(param).name in r.params && r.params[Classify(param).name] == s1
  {
    var name, segs := Classify(param).name, [s1, s2];
    var cx := NewNode(x).(entry := Some(e));
    var cp := NewNode(param).(children := [cx]);
    var cw := NewNode(wild).(entry := Some(w));
    TwoInserted(param, x, wild, e, w, cx, cp, cw);
    var root := Root.(children := [cp, cw]);
    var bound: Bindings := map[name := s1];
    assert s1[0..] == s1 && HasPrefix(s1, "");
    OneLiteral(cp, cx, segs, ts, bound);
    assert TryExact(root.children, 0, segs, 0, ts, map[]) == TryExact(root.children, 1, segs, 0, ts, map[]);
    assert TryExact(root.children, 1, segs, 0, ts, map[]) == TryExact(root.children, 2, segs, 0, ts, map[]);
    assert TryParam(root.children, 0, segs, 0, ts, map[]) == TryParam(root.children, 1, segs, 0, ts, bound);
    assert TryParam(root.children, 1, segs, 0, ts, bound) == TryParam(root.children, 2, segs, 0, ts, bound);
    assert TryWild(root.children, 0, segs, 0, bound) == TryWild(root.children, 1, segs, 0, bound);
  }

  lemma {:induction false} OneLiteral(n: RouteNode, c: RouteNode, segs: seq<string>, ts: bool, m: Bindings)
    requires |segs| == 2 && n.children == [c] && c.kind.Literal? && c.pathSegment != segs[1]
    ensures MatchNode(n, segs, 1, ts, m) == Outcome(None, m)
  {
    assert TryExact(n.children, 0, segs, 1, ts, m) == TryExact(n.children, 1, segs, 1, ts, m);
    assert TryParam(n.children, 0, segs, 1, ts, m) == TryParam(n.children, 1, segs, 1, ts, m);
    assert TryWild(n.children, 0, segs, 1, m) == TryWild(n.children, 1, segs, 1, m);
  }

  lemma {:induction false} TwoInserted(param: string, x: string, wild: string, e: Entry, w: Entry,
                                       cx: RouteNode, cp: RouteNode, cw: RouteNode)
    requires Classify(param).Param? && Classify(x).Literal? && Classify(wild).Wild?
    requires cx == NewNode(x).(entry := Some(e)) && cp == NewNode(param).(children := [cx]) && cw == NewNode(wild).(entry := Some(w))
    ensures Insert(Insert(Root, [param, x], 0, e), [wild], 0, w) == Root.(children := [cp, cw])
  {
    var ks := [param, x];
    assert Insert(NewNode(x), ks, 2, e) == cx;
    assert Insert(NewNode(param), ks, 1, e) == cp by { assert FindChild([], x, 0) == 0; }
    var one := Root.(children := [cp]);
    assert Insert(Root, ks, 0, e) == one by { assert FindChild([], param, 0) == 0; }
    assert FindChild(one.children, wild, 0) == FindChild(one.children, wild, 1) == 1;
    assert Insert(NewNode(wild), [wild], 1, w) == cw;
    assert one.children + [cw] == [cp, cw];
  }

  // ----- soundness -----

  lemma {:induction false} EntryVia(n: RouteNode, i: nat, ks: seq<string>, d: nat)
    requires WellFormed(n) && i < |n.children| && d < |ks| && ks[d] == n.children[i].pathSegment
    ensures EntryAt(n, ks, d) == EntryAt(n.children[i], ks, d + 1)
  {
    FindChildUnique(n.children, ks[d], 0, i);
  }

  /** A hit of the search: its pattern, and if names are distinct its parameters bound. */
  ghost predicate Hit(n: RouteNode, ks: seq<string>, segs: seq<string>, d: nat, ts: bool, r: Outcome, named: bool)
    requires d <= |segs|
  {
    && d <= |ks| && r.node.Some? && EntryAt(n, ks, d) == r.node.value.entry
    && Answers(n, ks, segs, d, ts) && (named ==> Bound(ks, segs, d, r.params))
  }

  /** From a hit below a child to a hit at the parent. */
  lemma {:induction false} HitVia(n: RouteNode, i: nat, ks: seq<string>, segs: seq<string>, d: nat, ts: bool, r: Outcome, named: bool)
    requires WellFormed(n) && i < |n.children| && d < |segs| && d < |ks| && ks[d] == n.children[i].pathSegment
    requires SegFits(ks[d], segs[d]) && Hit(n.children[i], ks, segs, d + 1, ts, r, named)
    requires named ==> match Classify(ks[d])
      case Param(prefix, name) => name in r.params && r.params[name] == segs[d][|prefix|..]
      case _ => true
    ensures Hit(n, ks, segs, d, ts, r, named)
  {
    EntryVia(n, i, ks, d);
    if |segs| <= |ks| { EntryVia(n, i, ks[..|segs|], d); }
  }

  /** Whatever the search returns answers the path. If no pattern names two parameters alike, every
      parameter of its pattern is bound to its own segment, whatever was tried and given up before. */
  lemma {:induction false} Sound(n: RouteNode, named: bool, used: set<string>, path: seq<string>, segs: seq<string>, d: nat, ts: bool, m: Bindings)
    returns (ks: seq<string>)
    requires WellFormed(n) && (named ==> FreshNames(n, used)) && !n.kind.Wild? && |path| == d <= |segs|
    requires MatchNode(n, segs, d, ts, m).node.Some?
    ensures path <= ks && Hit(n, ks, segs, d, ts, MatchNode(n, segs, d, ts, m), named)
    decreases |segs| - d, 2, 0
  {
    if d == |segs| {
      if n.entry.Some? {
        ks := path;
      } else {
        ks := SoundFirstWild(n, 0, path, segs, d, ts, m);
      }
    } else {
      var exact := TryExact(n.children, 0, segs, d, ts, m);
      if exact.node.Some? {
        ks := SoundExact(n, 0, named, used, path, segs, d, ts, m);
      } else {
        var param := TryParam(n.children, 0, segs, d, ts, exact.params);
        if param.node.Some? {
          ks := SoundParam(n, 0, named, used, path, segs, d, ts, exact.params);
        } else {
          ks := SoundWild(n, 0, path, segs, d, ts, param.params);
        }
      }
    }
  }

  lemma {:induction false} SoundFirstWild(n: RouteNode, i: nat, path: seq<string>, segs: seq<string>, d: nat, ts: bool, m: Bindings)
    returns (ks: seq<string>)
    requires WellFormed(n) && i <= |n.children| && |path| == d == |segs| && n.entry == None
    requires FirstWild(n.children, i).Some?
    ensures path <= ks && Hit(n, ks, segs, d, ts, Outcome(FirstWild(n.children, i), m), true)
    decreases |n.children| - i
  {
    if n.children[i].kind.Wild? && n.children[i].entry.Some? {
      ks := path + [n.children[i].pathSegment];
      EntryVia(n, i, ks, d);
      assert ks[..d] == path;
    } else {
      ks := SoundFirstWild(n, i + 1, path, segs, d, ts, m);
    }
  }

  lemma {:induction false} SoundExact(n: RouteNode, i: nat, named: bool, used: set<string>, path: seq<string>, segs: seq<string>, d: nat, ts: bool, m: Bindings)
    returns (ks: seq<string>)
    requires WellFormed(n) && (named ==> FreshNames(n, used)) && i <= |n.children| && |path| == d < |segs|
    requires TryExact(n.children, i, segs, d, ts, m).node.Some?
    ensures path <= ks && Hit(n, ks, segs, d, ts, TryExact(n.children, i, segs, d, ts, m), named)
    decreases |segs| - d, 1, |n.children| - i
  {
    var c := n.children[i];
    if c.kind.Literal? && c.pathSegment == segs[d] {
      var r := MatchNode(c, segs, d + 1, ts, m);
      if r.node.Some? {
        ks := Sound(c, named, used + NamesOf(c.kind), path + [c.pathSegment], segs, d + 1, ts, m);
        HitVia(n, i, ks, segs, d, ts, r, named);
      } else {
        ks := SoundExact(n, i + 1, named, used, path, segs, d, ts, r.params);
      }
    } else {
      ks := SoundExact(n, i + 1, named, used, path, segs, d, ts, m);
    }
  }

  /** A hit below a matching parameter: its own name is bound before and kept. */
  lemma {:induction false} HitParam(n: RouteNode, i: nat, c: RouteNode, ks: seq<string>, named: bool, used: set<string>,
                                    segs: seq<string>, d: nat, ts: bool, bound: Bindings, r: Outcome)
    requires WellFormed(n) && (named ==> FreshNames(n, used)) && i < |n.children| && c == n.children[i] && d < |segs|
    requires c.kind.Param? && HasPrefix(segs[d], c.kind.prefix)
    requires c.kind.name in bound && bound[c.kind.name] == segs[d][|c.kind.prefix|..]
    requires r == MatchNode(c, segs, d + 1, ts, bound) && d < |ks| && ks[d] == c.pathSegment && Hit(c, ks, segs, d + 1, ts, r, named)
    ensures Hit(n, ks, segs, d, ts, r, named)
  {
    if named { Keeps(c, used + NamesOf(c.kind), segs, d + 1, ts, bound); }
    HitVia(n, i, ks, segs, d, ts, r, named);
  }

  lemma {:induction false} SoundParam(n: RouteNode, i: nat, named: bool, used: set<string>, path: seq<string>, segs: seq<string>, d: nat, ts: bool, m: Bindings)
    returns (ks: seq<string>)
    requires WellFormed(n) && (named ==> FreshNames(n, used)) && i <= |n.children| && |path| == d < |segs|
    requires TryParam(n.children, i, segs, d, ts, m).node.Some?
    ensures path <= ks && Hit(n, ks, segs, d, ts, TryParam(n.children, i, segs, d, ts, m), named)
    decreases |segs| - d, 1, |n.children| - i
  {
    var c := n.children[i];
    if c.kind.Param? && HasPrefix(segs[d], c.kind.prefix) {
      var bound := m[c.kind.name := segs[d][|c.kind.prefix|..]];
      var r := MatchNode(c, segs, d + 1, ts, bound);
      if r.node.Some? {
        ks := Sound(c, named, used + NamesOf(c.kind), path + [c.pathSegment], segs, d + 1, ts, bound);
        HitParam(n, i, c, ks, named, used, segs, d, ts, bound, r);
      } else {
        ks := SoundParam(n, i + 1, named, used, path, segs, d, ts, r.params);
      }
    } else {
      ks := SoundParam(n, i + 1, named, used, path, segs, d, ts, m);
    }
  }

  lemma {:induction false} SoundWild(n: RouteNode, i: nat, path: seq<string>, segs: seq<string>, d: nat, ts: bool, m: Bindings)
    returns (ks: seq<string>)
    requires WellFormed(n) && i <= |n.children| && |path| == d < |segs|
    requires TryWild(n.children, i, segs, d, m).node.Some?
    ensures path <= ks && Hit(n, ks, segs, d, ts, TryWild(n.children, i, segs, d, m), true)
    decreases |n.children| - i
  {
    if n.children[i].kind.Wild? {
      ks := path + [n.children[i].pathSegment];
      EntryVia(n, i, ks, d);
    } else {
      ks := SoundWild(n, i + 1, path, segs, d, ts, m);
    }
  }

  // ----- completeness -----

  /** Which node is found does not depend on the parameters. */
  lemma {:induction false} NodeSame(n: RouteNode, segs: seq<string>, d: nat, ts: bool, m: Bindings, m': Bindings)
    requires d <= |segs|
    ensures MatchNode(n, segs, d, ts, m).node == MatchNode(n, segs, d, ts, m').node
    decreases |segs| - d, 2, 0
  {
    if d < |segs| {
      ExactSame(n.children, 0, segs, d, ts, m, m');
      var a, a' := TryExact(n.children, 0, segs, d, ts, m).params, TryExact(n.children, 0, segs, d, ts, m').params;
      ParamSame(n.children, 0, segs, d, ts, a, a');
      WildSame(n.children, 0, segs, d, TryParam(n.children, 0, segs, d, ts, a).params, TryParam(n.children, 0, segs, d, ts, a').params);
    }
  }

  lemma {:induction false} ExactSame(cs: seq<RouteNode>, i: nat, segs: seq<string>, d: nat, ts: bool, m: Bindings, m': Bindings)
    requires i <= |cs| && d < |segs|
    ensures TryExact(cs, i, segs, d, ts, m).node == TryExact(cs, i, segs, d, ts, m').node
    decreases |segs| - d, 1, |cs| - i
  {
    if i < |cs| {
      NodeSame(cs[i], segs, d + 1, ts, m, m');
      ExactSame(cs, i + 1, segs, d, ts, m, m');
      ExactSame(cs, i + 1, segs, d, ts, MatchNode(cs[i], segs, d + 1, ts, m).params, MatchNode(cs[i], segs, d + 1, ts, m').params);
    }
  }

  lemma {:induction false} ParamSame(cs: seq<RouteNode>, i: nat, segs: seq<string>, d: nat, ts: bool, m: Bindings, m': Bindings)
    requires i <= |cs| && d < |segs|
    ensures TryParam(cs, i, segs, d, ts, m).node == TryParam(cs, i, segs, d, ts, m').node
    decreases |segs| - d, 1, |cs| - i
  {
    if i < |cs| {
      ParamSame(cs, i + 1, segs, d, ts, m, m');
      if cs[i].kind.Param? && HasPrefix(segs[d], cs[i].kind.prefix) {
        var v := segs[d][|cs[i].kind.prefix|..];
        var b, b' := m[cs[i].kind.name := v], m'[cs[i].kind.name := v];
        NodeSame(cs[i], segs, d + 1, ts, b, b');
        ParamSame(cs, i + 1, segs, d, ts, MatchNode(cs[i], segs, d + 1, ts, b).params, MatchNode(cs[i], segs, d + 1, ts, b').params);
      }
    }
  }

  lemma {:induction false} WildSame(cs: seq<RouteNode>, i: nat, segs: seq<string>, d: nat, m: Bindings, m': Bindings)
    requires i <= |cs| && d < |segs|
    ensures TryWild(cs, i, segs, d, m).node == TryWild(cs, i, segs, d, m').node
    decreases |cs| - i
  {
    if i < |cs| { WildSame(cs, i + 1, segs, d, m, m'); }
  }

  lemma {:induction false} ExactReaches(cs: seq<RouteNode>, i: nat, k: nat, segs: seq<string>, d: nat, ts: bool, m: Bindings)
    requires i <= k < |cs| && d < |segs| && cs[k].kind.Literal? && cs[k].pathSegment == segs[d]
    requires MatchNode(cs[k], segs, d + 1, ts, map[]).node.Some?
    ensures TryExact(cs, i, segs, d, ts, m).node.Some?
    decreases k - i
  {
    if i == k {
      NodeSame(cs[k], segs, d + 1, ts, m, map[]);
    } else {
      ExactReaches(cs, i + 1, k, segs, d, ts, m);
      ExactReaches(cs, i + 1, k, segs, d, ts, MatchNode(cs[i], segs, d + 1, ts, m).params);
    }
  }

  lemma {:induction false} ParamReaches(cs: seq<RouteNode>, i: nat, k: nat, segs: seq<string>, d: nat, ts: bool, m: Bindings)
    requires i <= k < |cs| && d < |segs| && cs[k].kind.Param? && HasPrefix(segs[d], cs[k].kind.prefix)
    requires MatchNode(cs[k], segs, d + 1, ts, map[]).node.Some?
    ensures TryParam(cs, i, segs, d, ts, m).node.Some?
    decreases k - i
  {
    if cs[i].kind.Param? && HasPrefix(segs[d], cs[i].kind.prefix) {
      var bound := m[cs[i].kind.name := segs[d][|cs[i].kind.prefix|..]];
      if i == k {
        NodeSame(cs[k], segs, d + 1, ts, bound, map[]);
      } else {
        ParamReaches(cs, i + 1, k, segs, d, ts, MatchNode(cs[i], segs, d + 1, ts, bound).params);
      }
    } else {
      ParamReaches(cs, i + 1, k, segs, d, ts, m);
    }
  }

  lemma {:induction false} WildReaches(cs: seq<RouteNode>, i: nat, k: nat, segs: seq<string>, d: nat, m: Bindings)
    requires i <= k < |cs| && cs[k].kind.Wild? && d < |segs|
    ensures TryWild(cs, i, segs, d, m).node.Some?
    decreases k - i
  {
    if i < k { WildReaches(cs, i + 1, k, segs, d, m); }
  }

  lemma {:induction false} FirstWildReaches(cs: seq<RouteNode>, i: nat, k: nat)
    requires i <= k < |cs| && cs[k].kind.Wild? && cs[k].entry.Some?
    ensures FirstWild(cs, i).Some?
    decreases k - i
  {
    if i < k { FirstWildReaches(cs, i + 1, k); }
  }

  /** If any registered pattern answers the path, the search finds something. */
  lemma {:induction false} Complete(n: RouteNode, ks: seq<string>, segs: seq<string>, d: nat, ts: bool, m: Bindings)
    requires WellFormed(n) && d <= |ks| && d <= |segs| && Answers(n, ks, segs, d, ts) && (EndsWild(ks) ==> d < |ks|)
    ensures MatchNode(n, segs, d, ts, m).node.Some?
    decreases |segs| - d
  {
    if d < |ks| {
      var k := FindChild(n.children, ks[d], 0);
      var c := n.children[k];
      if d == |segs| {
        FirstWildReaches(n.children, 0, k);
        assert ks[..d][..d] == ks[..d];
      } else if Classify(ks[d]).Wild? {
        WildReaches(n.children, 0, k, segs, d, TryParam(n.children, 0, segs, d, ts, TryExact(n.children, 0, segs, d, ts, m).params).params);
      } else {
        AnswersVia(n, k, ks, segs, d, ts);
        Complete(c, ks, segs, d + 1, ts, map[]);
        if c.kind.Literal? {
          ExactReaches(n.children, 0, k, segs, d, ts, m);
        } else {
          ParamReaches(n.children, 0, k, segs, d, ts, TryExact(n.children, 0, segs, d, ts, m).params);
        }
      }
    }
  }

  lemma {:induction false} AnswersVia(n: RouteNode, k: nat, ks: seq<string>, segs: seq<string>, d: nat, ts: bool)
    requires WellFormed(n) && k < |n.children| && d < |ks| && d < |segs| && ks[d] == n.children[k].pathSegment
    requires !Classify(ks[d]).Wild? && Answers(n, ks, segs, d, ts)
    ensures Answers(n.children[k], ks, segs, d + 1, ts)
  {
    EntryVia(n, k, ks, d);
    if |segs| <= |ks| { EntryVia(n, k, ks[..|segs|], d); }
  }

  // ----- literal patterns win -----

  /** A path that is itself a literal pattern is found under that pattern, with no parameter set. */
  lemma {:induction false} ExactWins(n: RouteNode, segs: seq<string>, d: nat, ts: bool, m: Bindings)
    requires WellFormed(n) && d <= |segs| && !n.kind.Wild?
    requires forall i | d <= i < |segs| :: Classify(segs[i]).Literal?
    requires EntryAt(n, segs, d).Some? && EntryAt(n, segs, d).value.trailingSlash == ts
    ensures var r := MatchNode(n, segs, d, ts, m);
      r.node.Some? && r.node.value.entry == EntryAt(n, segs, d) && r.params == m
    decreases |segs| - d
  {
    if d < |segs| {
      var k := FindChild(n.children, segs[d], 0);
      ExactWins(n.children[k], segs, d + 1, ts, m);
      ExactSkips(n.children, 0, k, segs, d, ts, m);
    }
  }

  lemma {:induction false} ExactSkips(cs: seq<RouteNode>, i: nat, k: nat, segs: seq<string>, d: nat, ts: bool, m: Bindings)
    requires i <= k < |cs| && d < |segs| && DistinctSegments(cs)
    requires cs[k].pathSegment == segs[d] && cs[k].kind.Literal? && MatchNode(cs[k], segs, d + 1, ts, m).node.Some?
    ensures TryExact(cs, i, segs, d, ts, m) == MatchNode(cs[k], segs, d + 1, ts, m)
    decreases k - i
  {
    if i < k { ExactSkips(cs, i + 1, k, segs, d, ts, m); }
  }

  // ----- which pattern wins -----

  function Rank(seg: string): nat {
    match Classify(seg)
    case Literal => 0
    case Param(_, _) => 1
    case Wild(_) => 2
  }

  /** Where the patterns first differ, ks has a literal against a parameter or wildcard, or a
      parameter against another or a wildcard, or both have wildcards. */
  predicate Preferred(ks: seq<string>, qs: seq<string>, d: nat)
    decreases |ks| - d
  {
    d < |ks| && d < |qs| ==>
      if ks[d] == qs[d] then Preferred(ks, qs, d + 1) else Rank(ks[d]) <= Rank(qs[d]) && Rank(qs[d]) > 0
  }

  /** The child below which the search succeeded, with the parameters it had there. */
  lemma {:induction false} ExactHit(cs: seq<RouteNode>, i: nat, segs: seq<string>, d: nat, ts: bool, m: Bindings)
    returns (k: nat, m': Bindings)
    requires i <= |cs| && d < |segs| && TryExact(cs, i, segs, d, ts, m).node.Some?
    ensures k < |cs| && cs[k].kind.Literal? && cs[k].pathSegment == segs[d]
    ensures TryExact(cs, i, segs, d, ts, m) == MatchNode(cs[k], segs, d + 1, ts, m')
    decreases |cs| - i
  {
    if cs[i].kind.Literal? && cs[i].pathSegment == segs[d] {
      var r := MatchNode(cs[i], segs, d + 1, ts, m);
      if r.node.Some? { return i, m; }
      k, m' := ExactHit(cs, i + 1, segs, d, ts, r.params);
    } else {
      k, m' := ExactHit(cs, i + 1, segs, d, ts, m);
    }
  }

  lemma {:induction false} ParamHit(cs: seq<RouteNode>, i: nat, segs: seq<string>, d: nat, ts: bool, m: Bindings)
    returns (k: nat, m': Bindings)
    requires i <= |cs| && d < |segs| && TryParam(cs, i, segs, d, ts, m).node.Some?
    ensures k < |cs| && cs[k].kind.Param? && HasPrefix(segs[d], cs[k].kind.prefix)
    ensures TryParam(cs, i, segs, d, ts, m) == MatchNode(cs[k], segs, d + 1, ts, m')
    decreases |cs| - i
  {
    if cs[i].kind.Param? && HasPrefix(segs[d], cs[i].kind.prefix) {
      var bound := m[cs[i].kind.name := segs[d][|cs[i].kind.prefix|..]];
      var r := MatchNode(cs[i], segs, d + 1, ts, bound);
      if r.node.Some? { return i, bound; }
      k, m' := ParamHit(cs, i + 1, segs, d, ts, r.params);
    } else {
      k, m' := ParamHit(cs, i + 1, segs, d, ts, m);
    }
  }

  /** An answering pattern whose next segment is no wildcard makes the search succeed at once, among
      the literals if that segment is one. */
  lemma {:induction false} FoundBeforeWild(n: RouteNode, qs: seq<string>, segs: seq<string>, d: nat, ts: bool, m: Bindings)
    requires WellFormed(n) && d < |qs| && d < |segs| && Answers(n, qs, segs, d, ts) && !Classify(qs[d]).Wild?
    ensures var exact := TryExact(n.children, 0, segs, d, ts, m);
      if Classify(qs[d]).Literal? then exact.node.Some? else TryParam(n.children, 0, segs, d, ts, exact.params).node.Some?
  {
    var k := FindChild(n.children, qs[d], 0);
    AnswersVia(n, k, qs, segs, d, ts);
    Complete(n.children[k], qs, segs, d + 1, ts, map[]);
    if Classify(qs[d]).Literal? {
      ExactReaches(n.children, 0, k, segs, d, ts, m);
    } else {
      ParamReaches(n.children, 0, k, segs, d, ts, TryExact(n.children, 0, segs, d, ts, m).params);
    }
  }

  /** The pattern found is preferred to every other one that answers the path: literals come before
      parameters and parameters before wildcards, segment by segment. */
  lemma {:induction false} Prefers(n: RouteNode, path: seq<string>, qs: seq<string>, segs: seq<string>, d: nat, ts: bool, m: Bindings)
    returns (ks: seq<string>)
    requires WellFormed(n) && !n.kind.Wild? && |path| == d <= |segs| && d <= |qs|
    requires Answers(n, qs, segs, d, ts) && MatchNode(n, segs, d, ts, m).node.Some?
    ensures path <= ks && EntryAt(n, ks, d) == MatchNode(n, segs, d, ts, m).node.value.entry && EntryAt(n, ks, d).Some?
    ensures Preferred(ks, qs, d)
    decreases |segs| - d
  {
    if d == |segs| {
      ks := Sound(n, false, {}, path, segs, d, ts, m);
      if n.entry.Some? { assert qs[..|segs|][..d] == qs[..d]; }
    } else {
      if !Classify(qs[d]).Wild? { FoundBeforeWild(n, qs, segs, d, ts, m); }
      var exact := TryExact(n.children, 0, segs, d, ts, m);
      if exact.node.Some? {
        var k, m' := ExactHit(n.children, 0, segs, d, ts, m);
        ks := PrefersVia(n, k, path, qs, segs, d, ts, m');
      } else if TryParam(n.children, 0, segs, d, ts, exact.params).node.Some? {
        var k, m' := ParamHit(n.children, 0, segs, d, ts, exact.params);
        ks := PrefersVia(n, k, path, qs, segs, d, ts, m');
      } else {
        ks := Sound(n, false, {}, path, segs, d, ts, m);
      }
    }
  }

  lemma {:induction false} PrefersVia(n: RouteNode, k: nat, path: seq<string>, qs: seq<string>, segs: seq<string>, d: nat, ts: bool, m: Bindings)
    returns (ks: seq<string>)
    requires WellFormed(n) && |path| == d < |segs| && d < |qs| && k < |n.children| && !n.children[k].kind.Wild?
    requires Answers(n, qs, segs, d, ts) && MatchNode(n.children[k], segs, d + 1, ts, m).node.Some?
    requires SegFits(n.children[k].pathSegment, segs[d])
    requires n.children[k].kind.Param? ==> !Classify(qs[d]).Literal?
    ensures path <= ks && EntryAt(n, ks, d) == MatchNode(n.children[k], segs, d + 1, ts, m).node.value.entry && EntryAt(n, ks, d).Some?
    ensures Preferred(ks, qs, d)
    decreases |segs| - d, 0
  {
    var c := n.children[k];
    if qs[d] == c.pathSegment {
      AnswersVia(n, k, qs, segs, d, ts);
      ks := Prefers(c, path + [c.pathSegment], qs, segs, d + 1, ts, m);
    } else {
      ks := Sound(c, false, {}, path + [c.pathSegment], segs, d + 1, ts, m);
    }
    EntryVia(n, k, ks, d);
  }
}
