/** The tree is determined by its routes: where the nodes stand, and what they hold, does not depend on how it was built. */
module Canonical {
  import opened HttpTypes
  import opened Tokens
  import opened RadixTree
  import opened TreeEdits
  import opened InsertionSteps
  import opened Lookup

  // ----- which places have a node -----

  // Some route starts with these tokens.
  ghost predicate Used(routes: map<Place, Route>, pl: Place)
  {
    exists r :: r in routes && Under(pl, r)
  }

  // Routes part ways here, each going on with a literal of its own.
  ghost predicate Forks(routes: map<Place, Route>, pl: Place)
  {
    exists c: char, d: char :: c != d && Used(routes, pl.Then([Lit(c)])) && Used(routes, pl.Then([Lit(d)]))
  }

  // The places a compressed tree needs a node for, read off the routes alone.
  ghost predicate NeedsNode(routes: map<Place, Route>, pl: Place)
  {
    && Used(routes, pl)
    && (|| pl.path == [] || KindOf(pl.path) != StaticNode
        || pl in routes
        || Used(routes, pl.Then([Param])) || Used(routes, pl.Then([CatchAll]))
        || Forks(routes, pl))
  }

  ghost predicate HasNode(f: Forest, pl: Place)
  {
    exists n :: n in f.cells && f.cells[n].place == pl
  }

  // ----- a node stands only where one is needed -----

  lemma ChildSubtree(f: Forest, n: Node, c: Node)
    requires WellFormed(f) && IsChild(f, n, c)
    ensures Size(f, c) < Size(f, n)
  {
    ChildPlace(f, n, c);
    assert n in Subtree(f, n) && n !in Subtree(f, c);
    DisjointSizes(Subtree(f, c), {n}, Subtree(f, n));
  }

  lemma SomeChild(f: Forest, n: Node) returns (c: Node)
    requires WellFormed(f) && n in f.cells && Lean(f.cells[n]) && f.cells[n].route == None
    ensures IsChild(f, n, c)
  {
    var d := f.cells[n];
    assert NodeOk(f, n);
    if d.parameter != null {
      c := d.parameter;
    } else if d.catchAll != null {
      c := d.catchAll;
    } else {
      c := d.statics[0];
      assert StaticEdge(f, n, c);
    }
  }

  lemma {:induction false} RouteBelow(f: Forest, routes: map<Place, Route>, n: Node) returns (r: Place)
    requires WellFormed(f) && AllLean(f) && Denotes(f, routes) && n in f.cells
    ensures r in routes && Under(f.cells[n].place, r)
    decreases Size(f, n)
  {
    RouteAtNode(f, routes, n);
    assert Lean(f.cells[n]);
    if f.cells[n].route.Some? {
      r := f.cells[n].place;
    } else {
      var c := SomeChild(f, n);
      ChildSubtree(f, n, c);
      ChildPlace(f, n, c);
      r := RouteBelow(f, routes, c);
    }
  }

  // A child makes its first token used.
  lemma ChildUses(f: Forest, routes: map<Place, Route>, n: Node, c: Node)
    requires WellFormed(f) && AllLean(f) && Denotes(f, routes) && IsChild(f, n, c)
    ensures |f.cells[n].place.path| < |f.cells[c].place.path|
    ensures Used(routes, f.cells[n].place.Then([f.cells[c].place.path[|f.cells[n].place.path|]]))
  {
    ChildPlace(f, n, c);
    var r := RouteBelow(f, routes, c);
    var pl := f.cells[n].place.Then([f.cells[c].place.path[|f.cells[n].place.path|]]);
    assert Under(pl, r);
  }

  lemma TwoStaticsFork(f: Forest, routes: map<Place, Route>, n: Node)
    requires WellFormed(f) && AllLean(f) && Denotes(f, routes) && n in f.cells && |f.cells[n].statics| >= 2
    ensures Forks(routes, f.cells[n].place)
  {
    var a, b := f.cells[n].statics[0], f.cells[n].statics[1];
    assert NodeOk(f, n) && StaticEdge(f, n, a) && StaticEdge(f, n, b);
    assert IsChild(f, n, a) && IsChild(f, n, b);
    ChildPlace(f, n, a);
    ChildPlace(f, n, b);
    ChildUses(f, routes, n, a);
    ChildUses(f, routes, n, b);
  }

  lemma NodeIsNeeded(f: Forest, routes: map<Place, Route>, n: Node)
    requires WellFormed(f) && AllLean(f) && Denotes(f, routes) && n in f.cells
    ensures NeedsNode(routes, f.cells[n].place)
  {
    var d := f.cells[n];
    var r := RouteBelow(f, routes, n);
    assert Used(routes, d.place);
    assert NodeOk(f, n) && Lean(d);
    if d.kind == StaticNode && d.place.path != [] {
      RouteAtNode(f, routes, n);
      if d.parameter != null {
        ChildUses(f, routes, n, d.parameter);
        ChildPlace(f, n, d.parameter);
      } else if d.catchAll != null {
        ChildUses(f, routes, n, d.catchAll);
        ChildPlace(f, n, d.catchAll);
      } else if |d.statics| >= 2 {
        TwoStaticsFork(f, routes, n);
      }
    }
  }

  // ----- where one is needed, one stands -----

  // A place strictly inside the prefix of the static node `c`, whose parent is `p`.
  ghost predicate Inside(f: Forest, p: Node, c: Node, pl: Place)
  {
    && IsChild(f, p, c) && Under(f.cells[p].place, pl) && Under(pl, f.cells[c].place)
    && |f.cells[p].place.path| < |pl.path| < |f.cells[c].place.path|
  }

  // Going down from `n` towards `m` one meets the place on the way, or passes over it.
  lemma {:induction false} Locate(f: Forest, n: Node, pl: Place, m: Node) returns (p: Node, c: Node)
    requires WellFormed(f) && n in f.cells && m in f.cells
    requires Under(f.cells[n].place, pl) && Under(pl, f.cells[m].place)
    ensures c in f.cells && (f.cells[c].place == pl || Inside(f, p, c, pl))
    decreases |pl.path| - |f.cells[n].place.path|
  {
    p := n;
    if |f.cells[n].place.path| == |pl.path| {
      c := n;
    } else {
      c := Descend(f, n, m);
      ChildPlace(f, n, c);
      UnderMeets(f.cells[c].place, pl, f.cells[m].place);
      UnderMeets(pl, f.cells[c].place, f.cells[m].place);
      if |f.cells[c].place.path| <= |pl.path| {
        p, c := Locate(f, c, pl, m);
      }
    }
  }

  lemma InsideIsLiteral(f: Forest, p: Node, c: Node, pl: Place)
    requires WellFormed(f) && Inside(f, p, c, pl)
    ensures c in f.cells[p].statics
    ensures KindOf(pl.path) == StaticNode && f.cells[c].place.path[|pl.path|].Lit?
  {
    ChildPlace(f, p, c);
    assert NodeOk(f, p);
    assert c in f.cells[p].statics;
    assert StaticEdge(f, p, c);
    var base, path := f.cells[p].place.path, f.cells[c].place.path;
    assert forall i | |base| <= i < |path| :: path[i] == Lit(f.cells[c].prefix[i - |base|]);
    assert pl.path[|pl.path| - 1] == path[|pl.path| - 1];
  }

  // Whatever goes on from a place inside a prefix goes on as the prefix does.
  lemma InsideGoesOn(f: Forest, routes: map<Place, Route>, p: Node, c: Node, pl: Place, t: Token)
    requires WellFormed(f) && Denotes(f, routes) && Inside(f, p, c, pl) && Used(routes, pl.Then([t]))
    ensures f.cells[c].place.path[|pl.path|] == t
  {
    var r :| r in routes && Under(pl.Then([t]), r);
    var m :| m in f.cells && Holder(f, r, m);
    assert r.path[|pl.path|] == t && Under(pl, r);
    var d := Descend(f, p, m);
    ChildPlace(f, p, c);
    ChildPlace(f, p, d);
    var k := |f.cells[p].place.path|;
    assert f.cells[d].place.path[k] == r.path[k] == pl.path[k] == f.cells[c].place.path[k];
    SiblingsDiverge(f, p, c, d);
  }

  lemma NothingInside(f: Forest, routes: map<Place, Route>, p: Node, c: Node, pl: Place)
    requires WellFormed(f) && Denotes(f, routes) && Inside(f, p, c, pl)
    ensures NeedsNode(routes, pl) ==> pl in routes
  {
    InsideIsLiteral(f, p, c, pl);
    if Used(routes, pl.Then([Param])) {
      InsideGoesOn(f, routes, p, c, pl, Param);
    }
    if Used(routes, pl.Then([CatchAll])) {
      InsideGoesOn(f, routes, p, c, pl, CatchAll);
    }
    if x, y :| x != y && Used(routes, pl.Then([Lit(x)])) && Used(routes, pl.Then([Lit(y)])) {
      InsideGoesOn(f, routes, p, c, pl, Lit(x));
      InsideGoesOn(f, routes, p, c, pl, Lit(y));
    }
  }

  lemma NeededIsNode(f: Forest, routes: map<Place, Route>, pl: Place)
    requires WellFormed(f) && Denotes(f, routes) && NeedsNode(routes, pl)
    ensures HasNode(f, pl)
  {
    var r :| r in routes && Under(pl, r);
    var m :| m in f.cells && Holder(f, r, m);
    VerbHasRoot(f, m);
    RootSubtree(f, pl.verb);
    var p, c := Locate(f, f.roots[pl.verb], pl, m);
    if f.cells[c].place != pl {
      NothingInside(f, routes, p, c, pl);
      var n :| n in f.cells && Holder(f, pl, n);
    }
  }

  /** In a settled tree a place has a node exactly when the routes need one there: no dead branch, no missed compression. */
  lemma NodesAreNeeded(f: Forest, routes: map<Place, Route>, pl: Place)
    requires Settled(f, routes)
    ensures HasNode(f, pl) <==> NeedsNode(routes, pl)
  {
    if n :| n in f.cells && f.cells[n].place == pl {
      NodeIsNeeded(f, routes, n);
    }
    if NeedsNode(routes, pl) {
      NeededIsNode(f, routes, pl);
    }
  }

  // ----- two trees for the same routes -----

  lemma ParentPlace(f: Forest, g: Forest, routes: map<Place, Route>, n: Node, m: Node, p: Node, q: Node)
    requires Settled(f, routes) && Settled(g, routes)
    requires IsChild(f, p, n) && IsChild(g, q, m) && f.cells[n].place == g.cells[m].place
    ensures |f.cells[p].place.path| <= |g.cells[q].place.path|
  {
    var pl := f.cells[p].place;
    ChildPlace(f, p, n);
    ChildPlace(g, q, m);
    if |g.cells[q].place.path| < |pl.path| {
      NodesAreNeeded(f, routes, pl);
      NodesAreNeeded(g, routes, pl);
      var o :| o in g.cells && g.cells[o].place == pl;
      UnderMeets(g.cells[q].place, pl, g.cells[m].place);
      var c := Descend(g, q, o);
      OneChildTowards(g, q, c, m, g.cells[m].place);
    }
  }

  lemma LitsInjective(a: string, b: string)
    requires Lits(a) == Lits(b)
    ensures a == b
  {
    assert |a| == |Lits(a)| == |Lits(b)| == |b|;
    forall i | 0 <= i < |a| ensures a[i] == b[i] {
      assert Lits(a)[i] == Lits(b)[i];
    }
  }

  // A prefix is the literals between the parent's place and the node's own.
  lemma PrefixSpells(f: Forest, p: Node, n: Node, rest: Path)
    requires WellFormed(f) && IsChild(f, p, n)
    requires f.cells[n].place == f.cells[p].place.Then(rest)
    ensures rest != [] && (if rest[0].Lit? then Lits(f.cells[n].prefix) == rest else f.cells[n].prefix == "")
  {
    ChildPlace(f, p, n);
    assert NodeOk(f, p);
    assert rest == f.cells[n].place.path[|f.cells[p].place.path|..];
    if n in f.cells[p].statics {
      assert StaticEdge(f, p, n);
      assert Lits(f.cells[n].prefix) == rest;
    }
  }

  lemma SamePrefix(f: Forest, g: Forest, n: Node, m: Node, p: Node, q: Node)
    requires WellFormed(f) && WellFormed(g) && IsChild(f, p, n) && IsChild(g, q, m)
    requires f.cells[n].place == g.cells[m].place && |f.cells[p].place.path| == |g.cells[q].place.path|
    ensures f.cells[n].prefix == g.cells[m].prefix
  {
    ChildPlace(f, p, n);
    ChildPlace(g, q, m);
    UnderMeets(f.cells[p].place, g.cells[q].place, f.cells[n].place);
    var rest := f.cells[n].place.path[|f.cells[p].place.path|..];
    assert f.cells[n].place == f.cells[p].place.Then(rest);
    PrefixSpells(f, p, n, rest);
    PrefixSpells(g, q, m, rest);
    if rest[0].Lit? {
      LitsInjective(f.cells[n].prefix, g.cells[m].prefix);
    }
  }

  /** Two settled trees with the same routes have nodes at the same places, with the same kind, prefix and route:
      they differ at most in the order of their static children. */
  lemma TreeIsCanonical(f: Forest, g: Forest, routes: map<Place, Route>, n: Node)
    requires Settled(f, routes) && Settled(g, routes) && n in f.cells
    ensures exists m :: m in g.cells && g.cells[m].place == f.cells[n].place && SameData(f.cells[n], g.cells[m])
  {
    NodesAreNeeded(f, routes, f.cells[n].place);
    NodesAreNeeded(g, routes, f.cells[n].place);
    var m :| m in g.cells && g.cells[m].place == f.cells[n].place;
    assert NodeOk(f, n) && NodeOk(g, m);
    RouteAtNode(f, routes, n);
    RouteAtNode(g, routes, m);
    if f.cells[n].place.path == [] {
      assert RootOk(f, f.cells[n].place.verb) && RootOk(g, f.cells[n].place.verb);
    } else {
      var p :| p in f.cells && IsChild(f, p, n);
      var q :| q in g.cells && IsChild(g, q, m);
      ParentPlace(f, g, routes, n, m, p, q);
      ParentPlace(g, f, routes, m, n, q, p);
      SamePrefix(f, g, n, m, p, q);
    }
    assert SameData(f.cells[n], g.cells[m]);
  }

  predicate SameData(a: Cell, b: Cell)
  {
    a.kind == b.kind && a.prefix == b.prefix && a.route == b.route
  }
}
