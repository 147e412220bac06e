/** What the depth-first search may conclude at a node from what it found below the node's children. */
module Lookup {
  import opened HttpTypes
  import opened Text
  import opened Tokens
  import opened RadixTree
  import opened TreeEdits

  // `us` leads from `pl` to a registered route.
  ghost predicate Here(routes: map<Place, Route>, pl: Place, us: Path) { pl.Then(us) in routes }

  ghost predicate NoneMatch(routes: map<Place, Route>, pl: Place, rest: string)
  {
    forall us {:trigger Here(routes, pl, us)} | Here(routes, pl, us) :: Captures(us, rest).None?
  }

  // The same for the routes that go on from `pl` with a literal (rank 0), a parameter (1) or a catch-all (2).
  ghost predicate NoneOfRank(routes: map<Place, Route>, pl: Place, rest: string, rank: nat)
  {
    forall us {:trigger Here(routes, pl, us)} | Here(routes, pl, us) && us != [] && Rank(us[0]) == rank :: Captures(us, rest).None?
  }

  // `us` matches and comes before every other route that does.
  ghost predicate Best(routes: map<Place, Route>, pl: Place, rest: string, us: Path)
  {
    && Here(routes, pl, us) && Captures(us, rest).Some?
    && forall vs {:trigger Here(routes, pl, vs)} | Here(routes, pl, vs) && Captures(vs, rest).Some? && vs != us :: Before(us, vs)
  }

  lemma ThenAssoc(pl: Place, a: Path, b: Path)
    ensures pl.Then(a).Then(b) == pl.Then(a + b)
  {
  }

  // ----- routes below a node are reached through its children -----

  lemma Below(f: Forest, routes: map<Place, Route>, n: Node, us: Path) returns (c: Node, k: nat)
    requires WellFormed(f) && Denotes(f, routes) && n in f.cells && us != []
    requires Here(routes, f.cells[n].place, us)
    ensures IsChild(f, n, c) && 0 < k <= |us|
    ensures f.cells[c].place == f.cells[n].place.Then(us[..k]) && Here(routes, f.cells[c].place, us[k..])
  {
    var goal := f.cells[n].place.Then(us);
    var m :| m in f.cells && Holder(f, goal, m);
    c := Descend(f, n, m);
    ChildPlace(f, n, c);
    k := |f.cells[c].place.path| - |f.cells[n].place.path|;
    assert f.cells[c].place.path == goal.path[..|f.cells[c].place.path|];
    assert f.cells[c].place == f.cells[n].place.Then(us[..k]);
    assert us[..k] + us[k..] == us;
    ThenAssoc(f.cells[n].place, us[..k], us[k..]);
  }

  lemma BelowLit(f: Forest, routes: map<Place, Route>, n: Node, us: Path) returns (c: Node, vs: Path)
    requires WellFormed(f) && Denotes(f, routes) && n in f.cells && us != [] && us[0].Lit?
    requires Here(routes, f.cells[n].place, us)
    ensures c in f.cells[n].statics && IsChild(f, n, c)
    ensures us == Lits(f.cells[c].prefix) + vs && Here(routes, f.cells[c].place, vs)
  {
    var k;
    c, k := Below(f, routes, n, us);
    vs := us[k..];
    ChildPlace(f, n, c);
    var base := f.cells[n].place.path;
    assert f.cells[c].place.path[|base|] == us[0];
    assert StaticEdge(f, n, c) by {
      assert NodeOk(f, n);
    }
    assert us[..k] == f.cells[c].place.path[|base|..] == Lits(f.cells[c].prefix);
  }

  lemma BelowParam(f: Forest, routes: map<Place, Route>, n: Node, us: Path)
    requires WellFormed(f) && Denotes(f, routes) && n in f.cells && us != [] && us[0] == Param
    requires Here(routes, f.cells[n].place, us)
    ensures var c := f.cells[n].parameter; c != null && c in f.cells && Here(routes, f.cells[c].place, us[1..])
  {
    var c, k := Below(f, routes, n, us);
    ChildPlace(f, n, c);
    var base := f.cells[n].place.path;
    assert f.cells[c].place.path[|base|] == us[0];
    assert NodeOk(f, n);
    assert |f.cells[c].place.path| == |base| + 1;
  }

  lemma CatchAllIsLeaf(f: Forest, c: Node, d: Node)
    requires WellFormed(f) && c in f.cells && f.cells[c].kind == CatchAllNode
    ensures !IsChild(f, c, d)
  {
    assert NodeOk(f, c);
  }

  lemma BelowCatchAll(f: Forest, routes: map<Place, Route>, n: Node, us: Path)
    requires WellFormed(f) && Denotes(f, routes) && n in f.cells && us != [] && us[0] == CatchAll
    requires Here(routes, f.cells[n].place, us)
    ensures us == [CatchAll]
    ensures var c := f.cells[n].catchAll; c != null && c in f.cells && f.cells[c].route.Some?
  {
    var c, k := Below(f, routes, n, us);
    ChildPlace(f, n, c);
    var base := f.cells[n].place.path;
    assert f.cells[c].place.path[|base|] == us[0];
    assert NodeOk(f, n) && NodeOk(f, c);
    assert k == 1;
    var rest := us[1..];
    if rest != [] {
      var d, _ := Below(f, routes, c, rest);
      CatchAllIsLeaf(f, c, d);
    }
    assert f.cells[c].place.Then([]) == f.cells[c].place;
    RouteAtNode(f, routes, c);
  }

  // ----- what the search concludes -----

  lemma FoundHere(f: Forest, routes: map<Place, Route>, n: Node)
    requires WellFormed(f) && Denotes(f, routes) && n in f.cells && f.cells[n].route.Some?
    ensures Best(routes, f.cells[n].place, "", []) && f.cells[n].place.Then([]) == f.cells[n].place
    ensures Captures([], "") == Some([])
  {
    assert f.cells[n].place.Then([]) == f.cells[n].place;
    RouteAtNode(f, routes, n);
    assert Here(routes, f.cells[n].place, []);
  }

  // The static child that shares the first character of the text is the only one a literal can go through.
  lemma OnlyStatic(f: Forest, n: Node, c: Node, d: Node, rest: string)
    requires WellFormed(f) && IsChild(f, n, c) && IsChild(f, n, d) && c in f.cells[n].statics && d in f.cells[n].statics
    requires f.cells[c].prefix <= rest && f.cells[d].prefix <= rest
    ensures c == d
  {
    ChildPlace(f, n, c);
    ChildPlace(f, n, d);
    assert f.cells[c].prefix[0] == rest[0] == f.cells[d].prefix[0];
    SiblingsDiverge(f, n, c, d);
  }

  lemma StaticHere(f: Forest, routes: map<Place, Route>, n: Node, c: Node, us: Path)
    requires WellFormed(f) && n in f.cells && c in f.cells[n].statics
    ensures IsChild(f, n, c) && f.cells[c].prefix != ""
    ensures f.cells[c].place == f.cells[n].place.Then(Lits(f.cells[c].prefix))
    ensures f.cells[c].place.Then(us) == f.cells[n].place.Then(Lits(f.cells[c].prefix) + us)
  {
    assert NodeOk(f, n);
    assert StaticEdge(f, n, c);
    ThenAssoc(f.cells[n].place, Lits(f.cells[c].prefix), us);
  }

  lemma StaticFound(f: Forest, routes: map<Place, Route>, n: Node, c: Node, rest: string, us: Path)
    requires WellFormed(f) && Denotes(f, routes) && n in f.cells && c in f.cells[n].statics && c in f.cells
    requires f.cells[c].prefix <= rest && Best(routes, f.cells[c].place, rest[|f.cells[c].prefix|..], us)
    ensures Best(routes, f.cells[n].place, rest, Lits(f.cells[c].prefix) + us)
    ensures Captures(Lits(f.cells[c].prefix) + us, rest) == Captures(us, rest[|f.cells[c].prefix|..])
  {
    var prefix, pl := f.cells[c].prefix, f.cells[n].place;
    var all := Lits(prefix) + us;
    StaticHere(f, routes, n, c, us);
    MatchLits(prefix, us, rest);
    assert Here(routes, pl, all);
    forall vs | Here(routes, pl, vs) && Captures(vs, rest).Some? && vs != all ensures Before(all, vs) {
      assert vs != [] && all[0] == Lit(prefix[0]);
      if Rank(vs[0]) == 0 {
        var d, ws := BelowLit(f, routes, n, vs);
        MatchLits(f.cells[d].prefix, ws, rest);
        OnlyStatic(f, n, c, d, rest);
        BeforePrefix(Lits(prefix), us, ws);
      }
    }
  }

  // The text cannot go on through `c`.
  ghost predicate Refuted(f: Forest, routes: map<Place, Route>, c: Node, rest: string)
  {
    && c in f.cells
    && (f.cells[c].prefix <= rest ==> NoneMatch(routes, f.cells[c].place, rest[|f.cells[c].prefix|..]))
  }

  ghost predicate RefutedUpTo(f: Forest, routes: map<Place, Route>, n: Node, i: nat, rest: string)
    requires n in f.cells && i <= |f.cells[n].statics|
  {
    forall j | 0 <= j < i :: Refuted(f, routes, f.cells[n].statics[j], rest)
  }

  lemma StaticsFail(f: Forest, routes: map<Place, Route>, n: Node, rest: string)
    requires WellFormed(f) && Denotes(f, routes) && n in f.cells
    requires RefutedUpTo(f, routes, n, |f.cells[n].statics|, rest)
    ensures NoneOfRank(routes, f.cells[n].place, rest, 0)
  {
    forall us | Here(routes, f.cells[n].place, us) && us != [] && Rank(us[0]) == 0 ensures Captures(us, rest).None? {
      var c, vs := BelowLit(f, routes, n, us);
      assert Refuted(f, routes, c, rest);
      MatchLits(f.cells[c].prefix, vs, rest);
    }
  }

  lemma ParamHere(f: Forest, n: Node, us: Path)
    requires WellFormed(f) && n in f.cells && f.cells[n].parameter != null
    ensures f.cells[n].parameter in f.cells && IsChild(f, n, f.cells[n].parameter)
    ensures f.cells[f.cells[n].parameter].place.Then(us) == f.cells[n].place.Then([Param] + us)
  {
    assert NodeOk(f, n);
    ThenAssoc(f.cells[n].place, [Param], us);
  }

  lemma ParamFound(f: Forest, routes: map<Place, Route>, n: Node, c: Node, rest: string, us: Path)
    requires WellFormed(f) && Denotes(f, routes) && n in f.cells && c in f.cells && f.cells[n].parameter == c
    requires NoneOfRank(routes, f.cells[n].place, rest, 0)
    requires rest != "" && rest[0] != '/' && Best(routes, f.cells[c].place, rest[SegmentEnd(rest, 0)..], us)
    ensures Best(routes, f.cells[n].place, rest, [Param] + us)
    ensures var end := SegmentEnd(rest, 0);
            Captures([Param] + us, rest) == Some([rest[..end]] + Captures(us, rest[end..]).value)
  {
    var all, pl := [Param] + us, f.cells[n].place;
    assert all[1..] == us;
    ParamHere(f, n, us);
    assert Here(routes, pl, all);
    forall vs | Here(routes, pl, vs) && Captures(vs, rest).Some? && vs != all ensures Before(all, vs) {
      assert vs != [] && Rank(vs[0]) != 0;
      if Rank(vs[0]) == 1 {
        assert vs == [Param] + vs[1..];
        BelowParam(f, routes, n, vs);
      }
    }
  }

  lemma ParamFails(f: Forest, routes: map<Place, Route>, n: Node, rest: string)
    requires WellFormed(f) && Denotes(f, routes) && n in f.cells
    requires var c := f.cells[n].parameter;
             c != null && c in f.cells && rest != "" && rest[0] != '/' ==> NoneMatch(routes, f.cells[c].place, rest[SegmentEnd(rest, 0)..])
    ensures NoneOfRank(routes, f.cells[n].place, rest, 1)
  {
    forall us | Here(routes, f.cells[n].place, us) && us != [] && Rank(us[0]) == 1 ensures Captures(us, rest).None? {
      BelowParam(f, routes, n, us);
    }
  }

  lemma CatchAllFound(f: Forest, routes: map<Place, Route>, n: Node, c: Node, rest: string)
    requires WellFormed(f) && Denotes(f, routes) && n in f.cells && c in f.cells && f.cells[n].catchAll == c
    requires f.cells[c].route.Some? && rest != "" && rest != "/"
    requires NoneOfRank(routes, f.cells[n].place, rest, 0) && NoneOfRank(routes, f.cells[n].place, rest, 1)
    ensures Best(routes, f.cells[n].place, rest, [CatchAll]) && Captures([CatchAll], rest) == Some([rest])
    ensures f.cells[c].place == f.cells[n].place.Then([CatchAll])
  {
    assert NodeOk(f, n);
    RouteAtNode(f, routes, c);
    assert Here(routes, f.cells[n].place, [CatchAll]);
    forall vs | Here(routes, f.cells[n].place, vs) && Captures(vs, rest).Some? ensures vs == [CatchAll] {
      assert vs != [] && Rank(vs[0]) == 2;
      BelowCatchAll(f, routes, n, vs);
    }
  }

  lemma NothingFound(f: Forest, routes: map<Place, Route>, n: Node, rest: string)
    requires WellFormed(f) && Denotes(f, routes) && n in f.cells
    requires rest == "" ==> f.cells[n].route == None
    requires NoneOfRank(routes, f.cells[n].place, rest, 0) && NoneOfRank(routes, f.cells[n].place, rest, 1)
    requires var c := f.cells[n].catchAll; c != null && c in f.cells && f.cells[c].route.Some? ==> rest == "" || rest == "/"
    ensures NoneMatch(routes, f.cells[n].place, rest)
  {
    var pl := f.cells[n].place;
    assert pl.Then([]) == pl;
    RouteAtNode(f, routes, n);
    forall us | Here(routes, pl, us) ensures Captures(us, rest).None? {
      if us != [] && Rank(us[0]) == 2 {
        BelowCatchAll(f, routes, n, us);
      } else {
        assert us != [] ==> Rank(us[0]) == 0 || Rank(us[0]) == 1;
      }
    }
  }

  // A verb without a root has no routes.
  lemma {:induction false} VerbHasRoot(f: Forest, n: Node)
    requires WellFormed(f) && n in f.cells
    ensures f.cells[n].place.verb in f.roots
    decreases |f.cells[n].place.path|
  {
    assert NodeOk(f, n);
    if f.cells[n].place.path != [] {
      var p :| p in f.cells && IsChild(f, p, n);
      ChildPlace(f, p, n);
      VerbHasRoot(f, p);
    }
  }

  lemma NoRootNoMatch(f: Forest, routes: map<Place, Route>, verb: Verb, path: string)
    requires WellFormed(f) && Denotes(f, routes) && verb !in f.roots
    ensures NoneMatch(routes, Place(verb, []), path)
  {
    forall us | Here(routes, Place(verb, []), us) ensures false {
      var n :| n in f.cells && Holder(f, Place(verb, []).Then(us), n);
      VerbHasRoot(f, n);
    }
  }

  // ----- the cost of a search -----

  ghost function Subtree(f: Forest, n: Node): set<Node>
    requires n in f.cells
  {
    set m | m in f.cells && Under(f.cells[n].place, f.cells[m].place)
  }

  ghost function Size(f: Forest, n: Node): nat
    requires n in f.cells
  {
    |Subtree(f, n)|
  }

  // Nodes below one of the first i static children.
  ghost predicate BelowStatic(f: Forest, n: Node, i: nat, m: Node)
    requires n in f.cells && m in f.cells && i <= |f.cells[n].statics|
  {
    exists j :: 0 <= j < i && f.cells[n].statics[j] in f.cells && Under(f.cells[f.cells[n].statics[j]].place, f.cells[m].place)
  }

  ghost function BelowStatics(f: Forest, n: Node, i: nat): set<Node>
    requires n in f.cells && i <= |f.cells[n].statics|
  {
    set m | m in f.cells && BelowStatic(f, n, i, m)
  }

  lemma DisjointSizes<T>(a: set<T>, b: set<T>, c: set<T>)
    requires a !! b && a + b <= c
    ensures |a| + |b| <= |c|
  {
    SubsetSize(a + b, c);
    assert |a + b| == |a| + |b|;
  }

  lemma SubsetSize<T>(a: set<T>, b: set<T>)
    requires a <= b
    ensures |a| <= |b|
  {
    assert b == a + (b - a);
    assert |b| == |a| + |b - a|;
  }

  /** Searches below different static children never enter the same node. */
  lemma NextStaticApart(f: Forest, n: Node, i: nat)
    requires WellFormed(f) && n in f.cells && i < |f.cells[n].statics| && f.cells[n].statics[i] in f.cells
    ensures var c := f.cells[n].statics[i];
            BelowStatics(f, n, i) !! Subtree(f, c) && BelowStatics(f, n, i) + Subtree(f, c) <= BelowStatics(f, n, i + 1)
  {
    var c := f.cells[n].statics[i];
    var a, b := BelowStatics(f, n, i), Subtree(f, c);
    assert NodeOk(f, n);
    forall m | m in a && m in b ensures false {
      var j :| 0 <= j < i && f.cells[n].statics[j] in f.cells && Under(f.cells[f.cells[n].statics[j]].place, f.cells[m].place);
      var d := f.cells[n].statics[j];
      assert IsChild(f, n, c) && IsChild(f, n, d);
      OneChildTowards(f, n, c, d, f.cells[m].place);
    }
  }

  lemma BelowStaticIsBelow(f: Forest, n: Node, i: nat, m: Node)
    requires WellFormed(f) && n in f.cells && m in f.cells && i <= |f.cells[n].statics| && BelowStatic(f, n, i, m)
    ensures m in Subtree(f, n) && m != n
    ensures f.cells[n].parameter != null && f.cells[n].parameter in f.cells ==> m !in Subtree(f, f.cells[n].parameter)
  {
    var j :| 0 <= j < i && f.cells[n].statics[j] in f.cells && Under(f.cells[f.cells[n].statics[j]].place, f.cells[m].place);
    var c, p := f.cells[n].statics[j], f.cells[n].parameter;
    assert IsChild(f, n, c);
    ChildPlace(f, n, c);
    if p != null && p in f.cells && m in Subtree(f, p) {
      ChildPlace(f, n, p);
      OneChildTowards(f, n, c, p, f.cells[m].place);
    }
  }

  lemma ParamSubtree(f: Forest, n: Node, p: Node)
    requires WellFormed(f) && n in f.cells && f.cells[n].parameter == p && p in f.cells
    ensures Subtree(f, p) <= Subtree(f, n) && n !in Subtree(f, p)
  {
    assert IsChild(f, n, p);
    ChildPlace(f, n, p);
  }

  ghost function UnderParam(f: Forest, n: Node): set<Node>
    requires n in f.cells
  {
    var p := f.cells[n].parameter;
    if p != null && p in f.cells then Subtree(f, p) else {}
  }

  ghost function AllBelowStatics(f: Forest, n: Node): set<Node>
    requires n in f.cells
  {
    BelowStatics(f, n, |f.cells[n].statics|)
  }

  /** A node, the nodes below its static children and those below its parameter child are apart, and all in its subtree. */
  lemma SubtreeParts(f: Forest, n: Node)
    requires WellFormed(f) && n in f.cells
    ensures n !in AllBelowStatics(f, n) && n !in UnderParam(f, n) && AllBelowStatics(f, n) !! UnderParam(f, n)
    ensures {n} + AllBelowStatics(f, n) + UnderParam(f, n) <= Subtree(f, n)
  {
    var p, i := f.cells[n].parameter, |f.cells[n].statics|;
    forall m | m in AllBelowStatics(f, n) ensures m in Subtree(f, n) && m != n && m !in UnderParam(f, n) {
      BelowStaticIsBelow(f, n, i, m);
    }
    if p != null && p in f.cells {
      ParamSubtree(f, n, p);
    }
  }

  // The log `after` goes on from `before` with nodes of `within`, each once.
  ghost predicate LogsOnce(before: seq<Node>, after: seq<Node>, within: set<Node>)
  {
    && before <= after
    && (forall i | |before| <= i < |after| :: after[i] in within)
    && (forall i, j | |before| <= i < j < |after| :: after[i] != after[j])
  }

  lemma LogsChain(a: seq<Node>, b: seq<Node>, c: seq<Node>, x: set<Node>, y: set<Node>, z: set<Node>)
    requires LogsOnce(a, b, x) && LogsOnce(b, c, y) && x !! y && x + y <= z
    ensures LogsOnce(a, c, z)
  {
    forall i | |a| <= i < |b| ensures c[i] in x {
      assert c[i] == b[i];
    }
    forall i, j | |a| <= i < j < |c| ensures c[i] != c[j] {
      assert i < |b| ==> c[i] == b[i];
      assert j < |b| ==> c[j] == b[j];
    }
  }

  lemma LogsWider(a: seq<Node>, b: seq<Node>, x: set<Node>, z: set<Node>)
    requires LogsOnce(a, b, x) && x <= z
    ensures LogsOnce(a, b, z)
  {
  }

  lemma StaticsGrow(f: Forest, n: Node, i: nat)
    requires n in f.cells && i <= |f.cells[n].statics|
    ensures BelowStatics(f, n, i) <= AllBelowStatics(f, n)
  {
  }

  lemma CatchAllHere(f: Forest, n: Node)
    requires WellFormed(f) && n in f.cells && f.cells[n].catchAll != null
    ensures f.cells[n].catchAll in f.cells
  {
    assert NodeOk(f, n);
  }

  // ----- the answer to a lookup -----

  // `w` is the winning pattern among the verb's routes: the first of those that match, or none if none does.
  ghost predicate Wins(routes: map<Place, Route>, verb: Verb, path: string, w: Option<Path>)
  {
    match w
    case None => NoneMatch(routes, Place(verb, []), path)
    case Some(us) => Best(routes, Place(verb, []), path, us)
  }

  ghost function Reply(routes: map<Place, Route>, verb: Verb, path: string, w: Option<Path>): Option<MatchResult>
    requires Wins(routes, verb, path, w)
  {
    match w
    case None => None
    case Some(us) =>
      assert Here(routes, Place(verb, []), us);
      Some(MatchResult(routes[Place(verb, []).Then(us)], Captures(us, path).value))
  }

  // The reply itself, without naming the winner.
  ghost predicate IsAnswer(routes: map<Place, Route>, verb: Verb, path: string, r: Option<MatchResult>)
  {
    match r
    case None => NoneMatch(routes, Place(verb, []), path)
    case Some(found) =>
      exists us :: && Best(routes, Place(verb, []), path, us) && Here(routes, Place(verb, []), us)
                   && found.route == routes[Place(verb, []).Then(us)] && Captures(us, path) == Some(found.values)
  }

  ghost function VerbNodes(f: Forest, verb: Verb): set<Node> { set n | n in f.cells && f.cells[n].place.verb == verb }

  lemma RootSubtree(f: Forest, verb: Verb)
    requires WellFormed(f) && verb in f.roots
    ensures f.roots[verb] in f.cells && f.cells[f.roots[verb]].place == Place(verb, [])
    ensures Subtree(f, f.roots[verb]) == VerbNodes(f, verb)
  {
    assert RootOk(f, verb);
  }

  // The node found is where the best route below `pl` ends.
  ghost predicate Found(f: Forest, routes: map<Place, Route>, pl: Place, rest: string, found: Node, us: Path)
  {
    found in f.cells && f.cells[found].place == pl.Then(us) && Best(routes, pl, rest, us)
  }
}
