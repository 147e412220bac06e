/** The walk of one registration through the tree: what each turn needs and what it leaves behind. */
module InsertionSteps {
  import opened HttpTypes
  import opened Text
  import opened Tokens
  import opened Patterns
  import opened RadixTree
  import opened TreeEdits

  method CommonPrefix(a: string, b: string) returns (i: nat)
    ensures i <= |a| && i <= |b| && a[..i] == b[..i]
    ensures i < |a| && i < |b| ==> a[i] != b[i]
  {
    i := 0;
    while i < |a| && i < |b| && a[i] == b[i]
      invariant i <= |a| && i <= |b| && a[..i] == b[..i]
    {
      i := i + 1;
    }
  }

  // A node that may still gain a static child without becoming a useless one.
  predicate CanTakeStatic(d: Cell)
  {
    d.kind == StaticNode && d.place.path != [] ==> d.route.Some? || HasSpecial(d) || d.statics != []
  }

  ghost predicate Moved(f: Forest, g: Forest, n: Node)
  {
    n in f.cells && n in g.cells && g.cells[n].place != f.cells[n].place
  }

  // At most one node, the split one, has moved.
  ghost predicate OneMoved(f: Forest, g: Forest)
  {
    && f.cells.Keys <= g.cells.Keys
    && forall n, m {:trigger Moved(f, g, n), Moved(f, g, m)} | n in f.cells && m in f.cells && Moved(f, g, n) && Moved(f, g, m) :: n == m
  }

  ghost predicate NoneMoved(f: Forest, g: Forest)
  {
    && f.cells.Keys <= g.cells.Keys
    && forall n {:trigger Moved(f, g, n)} | n in f.cells :: !Moved(f, g, n)
  }

  // When text may be inserted below a node of a tree that is lean everywhere else.
  ghost predicate StaticReady(f: Forest, parent: Node, text: string)
  {
    && WellFormed(f) && parent in f.cells && LeanExcept(f, parent)
    && (text != "" ==>
          && f.cells[parent].kind != CatchAllNode
          && (f.cells[parent].kind == ParameterNode ==> text[0] == '/')
          && (if FitsStatic(f, parent, text) then Lean(f.cells[parent]) else CanTakeStatic(f.cells[parent])))
  }

  // What inserting text below a node does to the tree.
  ghost predicate StaticInserted(f: Forest, g: Forest, parent: Node, text: string, result: Node)
    requires parent in f.cells
  {
    && WellFormed(g) && g.roots == f.roots
    && result in g.cells && g.cells[result].place == f.cells[parent].place.Then(Lits(text))
    && LeanExcept(g, result)
    && (g == f || RouteFree(g.cells[result]))
    && OneMoved(f, g)
    && |g.cells| <= |f.cells| + (if text == "" then 0 else if FitsStatic(f, parent, text) then 2 else 1)
    && TextSize(g.cells) <= TextSize(f.cells) + |text|
    && (text != "" && !FitsStatic(f, parent, text) ==>
          NoneMoved(f, g) && g.cells[result].statics == [] && RouteFree(g.cells[result]))
    && (text == "" ==> g == f && result == parent)
  }

  lemma StaticChild(f: Forest, p: Node, c: Node)
    requires WellFormed(f) && p in f.cells && c in f.cells[p].statics
    ensures c in f.cells && f.cells[c].prefix != "" && f.cells[c].kind == StaticNode
  {
    assert NodeOk(f, p);
    assert StaticEdge(f, p, c);
    assert NodeOk(f, c);
    LitsKind(f.cells[p].place.path, f.cells[c].prefix);
  }

  lemma NewLeafInserted(f: Forest, p: Node, text: string, leaf: Node, routes: map<Place, Route>)
    requires StaticReady(f, p, text) && text != "" && !FitsStatic(f, p, text) && leaf !in f.cells && Denotes(f, routes)
    ensures StaticInserted(f, AddStatic(f, p, text, leaf), p, text, leaf)
    ensures Denotes(AddStatic(f, p, text, leaf), routes)
  {
    var g := AddStatic(f, p, text, leaf);
    AddStaticWellFormed(f, p, text, leaf);
    AddStaticLean(f, p, text, leaf);
    HangDenotes(f, g, p, leaf, routes);
    HangTextSize(f, g, p, leaf);
    OneMoreNode(f, g, leaf);
  }

  // `c`, the static child of `p` that shares the text's first k characters and no more.
  ghost predicate Shares(f: Forest, p: Node, text: string, c: Node, k: nat)
  {
    && p in f.cells && c in f.cells && c in f.cells[p].statics
    && 0 < k <= |text| && k <= |f.cells[c].prefix| && f.cells[c].prefix[..k] == text[..k]
    && (k < |f.cells[c].prefix| && k < |text| ==> f.cells[c].prefix[k] != text[k])
  }

  lemma SharesFits(f: Forest, p: Node, text: string, c: Node, k: nat)
    requires Shares(f, p, text, c, k)
    ensures FitsStatic(f, p, text)
  {
    assert f.cells[c].prefix[0] == f.cells[c].prefix[..k][0] == text[..k][0] == text[0];
  }

  lemma FollowReady(f: Forest, p: Node, text: string, c: Node, k: nat)
    requires StaticReady(f, p, text) && Shares(f, p, text, c, k) && k == |f.cells[c].prefix|
    ensures StaticReady(f, c, text[k..])
    ensures f.cells[p].place.Then(Lits(text)) == f.cells[c].place.Then(Lits(text[k..]))
  {
    SharesFits(f, p, text, c, k);
    assert NodeOk(f, p) && NodeOk(f, c);
    LitsKind(f.cells[p].place.path, f.cells[c].prefix);
    LitsAlong(f.cells[p].place, text[..k], text[k..]);
    assert text[..k] + text[k..] == text && f.cells[c].prefix == text[..k];
    assert Lean(f.cells[c]);
  }

  lemma FollowInserted(f: Forest, g: Forest, p: Node, text: string, c: Node, k: nat, result: Node)
    requires StaticReady(f, p, text) && Shares(f, p, text, c, k) && k == |f.cells[c].prefix|
    requires StaticInserted(f, g, c, text[k..], result)
    ensures StaticInserted(f, g, p, text, result)
  {
    FollowReady(f, p, text, c, k);
    SharesFits(f, p, text, c, k);
  }

  lemma SplitReady(f: Forest, p: Node, text: string, c: Node, k: nat, suffix: Node)
    requires StaticReady(f, p, text) && Shares(f, p, text, c, k) && k < |f.cells[c].prefix| && suffix !in f.cells
    ensures var g := Split(f, p, c, k, suffix);
            && StaticReady(g, c, text[k..]) && !FitsStatic(g, c, text[k..])
            && g.cells[p].place.Then(Lits(text)) == g.cells[c].place.Then(Lits(text[k..]))
  {
    SharesFits(f, p, text, c, k);
    SplitWellFormed(f, p, c, k, suffix);
    SplitLean(f, p, c, k, suffix);
    SplitBasics(f, p, c, k, suffix);
    LitsAlong(f.cells[p].place, text[..k], text[k..]);
    assert text[..k] + text[k..] == text;
  }

  lemma SplitInserted(f: Forest, g: Forest, p: Node, text: string, c: Node, k: nat, suffix: Node, result: Node)
    requires StaticReady(f, p, text) && Shares(f, p, text, c, k) && k < |f.cells[c].prefix| && suffix !in f.cells
    requires StaticInserted(Split(f, p, c, k, suffix), g, c, text[k..], result)
    ensures StaticInserted(f, g, p, text, result)
  {
    var h := Split(f, p, c, k, suffix);
    SharesFits(f, p, text, c, k);
    SplitReady(f, p, text, c, k, suffix);
    SplitBasics(f, p, c, k, suffix);
    SplitTextSize(f, p, c, k, suffix);
    OneMoreNode(f, h, suffix);
    assert NoneMoved(h, g);
    forall n | n in f.cells && Moved(f, g, n) ensures n == c {
      assert !Moved(h, g, n);
    }
  }

  // The forest after the split, if there was one.
  ghost predicate SplitIfShort(f: Forest, h: Forest, p: Node, c: Node, k: nat)
    requires p in f.cells && c in f.cells && k <= |f.cells[c].prefix|
  {
    if k < |f.cells[c].prefix| then exists suffix :: suffix in h.cells && suffix !in f.cells && h == Split(f, p, c, k, suffix)
    else h == f
  }

  lemma Entered(f: Forest, h: Forest, g: Forest, p: Node, text: string, c: Node, k: nat, result: Node)
    requires StaticReady(f, p, text) && Shares(f, p, text, c, k) && SplitIfShort(f, h, p, c, k) && c in h.cells
    requires StaticInserted(h, g, c, text[k..], result)
    ensures StaticInserted(f, g, p, text, result)
  {
    if k < |f.cells[c].prefix| {
      var suffix :| suffix in h.cells && suffix !in f.cells && h == Split(f, p, c, k, suffix);
      SplitInserted(f, g, p, text, c, k, suffix, result);
    } else {
      FollowInserted(f, g, p, text, c, k, result);
    }
  }

  // ----- walking a whole pattern into the tree -----

  function SpecialToken(kind: NodeType): Token
  {
    if kind == CatchAllNode then CatchAll else Param
  }

  ghost predicate SpecialInserted(f: Forest, g: Forest, p: Node, t: Token, result: Node)
    requires p in f.cells
  {
    && WellFormed(g) && g.roots == f.roots
    && result in g.cells && g.cells[result].place == f.cells[p].place.Then([t])
    && LeanExcept(g, result)
    && (g == f || (RouteFree(g.cells[result]) && g.cells[result].statics == []))
    && NoneMoved(f, g)
    && |g.cells| <= |f.cells| + 1
    && TextSize(g.cells) == TextSize(f.cells)
    && (RouteFree(f.cells[p]) ==> RouteFree(g.cells[result]) && g.cells[result].statics == [])
  }

  lemma OldSpecialInserted(f: Forest, p: Node, t: Token, result: Node)
    requires WellFormed(f) && p in f.cells && LeanExcept(f, p)
    requires if t == Param then f.cells[p].parameter == result else t == CatchAll && f.cells[p].catchAll == result
    ensures SpecialInserted(f, f, p, t, result)
  {
    assert NodeOk(f, p);
    assert Lean(f.cells[p]);
  }

  lemma NewSpecialInserted(f: Forest, p: Node, t: Token, leaf: Node, routes: map<Place, Route>)
    requires SpecialAddable(f, p, t, leaf) && LeanExcept(f, p) && Denotes(f, routes)
    ensures SpecialInserted(f, AddSpecial(f, p, t, leaf), p, t, leaf)
    ensures Denotes(AddSpecial(f, p, t, leaf), routes)
  {
    var g := AddSpecial(f, p, t, leaf);
    AddSpecialWellFormed(f, p, t, leaf);
    HangDenotes(f, g, p, leaf, routes);
    HangTextSize(f, g, p, leaf);
    OneMoreNode(f, g, leaf);
  }

  // Once the walk has changed anything it stands on new ground: no route, nothing special, and at a
  // boundary nothing at all below.
  predicate Blank(d: Cell)
  {
    RouteFree(d) && (d.kind != StaticNode || d.place.path == [] ==> d.statics == [])
  }

  // Between two turns of the walk: at a root or at a special node.
  predicate AtBoundary(d: Cell)
  {
    && (Lean(d) || d.statics == [])
    && d.kind != CatchAllNode
    && (d.kind == StaticNode ==> d.place.path == [])
  }

  // How far a walk has come: it stands at `current`, whose place is `done`, after `steps` insertions.
  ghost predicate Walked(f0: Forest, f: Forest, current: Node, pl: Place, steps: nat, text: nat)
  {
    && WellFormed(f) && current in f.cells && f.cells[current].place == pl
    && LeanExcept(f, current)
    && (f == f0 || Blank(f.cells[current]))
    && OneMoved(f0, f)
    && |f.cells| <= |f0.cells| + steps + 1
    && TextSize(f.cells) <= TextSize(f0.cells) + text
  }

  lemma NewRootLean(f: Forest, verb: Verb, root: Node)
    requires AllLean(f) && root !in f.cells
    ensures LeanExcept(AddRoot(f, verb, root), root) && OneMoved(f, AddRoot(f, verb, root))
  {
    var g := AddRoot(f, verb, root);
    forall m | m in g.cells && m != root ensures Lean(g.cells[m]) {
      assert Lean(f.cells[m]);
    }
  }

  lemma WalkFromNewRoot(f: Forest, verb: Verb, root: Node)
    requires WellFormed(f) && AllLean(f) && verb !in f.roots && root !in f.cells
    ensures Walked(f, AddRoot(f, verb, root), root, Place(verb, []), 1, 0)
    ensures AtBoundary(AddRoot(f, verb, root).cells[root])
  {
    var g := AddRoot(f, verb, root);
    AddRootWellFormed(f, verb, root);
    NewRootLean(f, verb, root);
    TextSizeReplace(f.cells, root, g.cells[root]);
    OneMoreNode(f, g, root);
  }

  lemma WalkFromOldRoot(f: Forest, verb: Verb)
    requires WellFormed(f) && AllLean(f) && verb in f.roots
    ensures Walked(f, f, f.roots[verb], Place(verb, []), 0, 0)
    ensures AtBoundary(f.cells[f.roots[verb]])
  {
    assert RootOk(f, verb);
    assert NodeOk(f, f.roots[verb]);
    assert Lean(f.cells[f.roots[verb]]);
  }

  lemma MovedChain(f0: Forest, f: Forest, g: Forest)
    requires if f == f0 then OneMoved(f, g) else OneMoved(f0, f) && NoneMoved(f, g)
    ensures OneMoved(f0, g)
  {
    if f != f0 {
      forall n, m | n in f0.cells && m in f0.cells && Moved(f0, g, n) && Moved(f0, g, m) ensures n == m {
        assert !Moved(f, g, n) && !Moved(f, g, m);
        assert Moved(f0, f, n) && Moved(f0, f, m);
      }
    }
  }

  lemma WalkReady(f0: Forest, f: Forest, current: Node, pl: Place, steps: nat, size: nat, text: string)
    requires Walked(f0, f, current, pl, steps, size) && AtBoundary(f.cells[current])
    requires text != "" && text[0] == '/'
    ensures StaticReady(f, current, text)
    ensures f == f0 || !FitsStatic(f, current, text)
  {
  }

  lemma WalkStatic(f0: Forest, f: Forest, g: Forest, current: Node, pl: Place, steps: nat, size: nat, text: string, result: Node)
    requires Walked(f0, f, current, pl, steps, size) && AtBoundary(f.cells[current])
    requires text != "" && text[0] == '/' && StaticInserted(f, g, current, text, result)
    ensures Walked(f0, g, result, pl.Then(Lits(text)), steps + 1, size + |text|)
    ensures g.cells[result].kind == StaticNode
  {
    WalkReady(f0, f, current, pl, steps, size, text);
    MovedChain(f0, f, g);
    LitsKind(pl.path, text);
    assert NodeOk(g, result);
  }

  lemma LitsEndInSlash(pl: Place, text: string)
    requires text != "" && text[|text| - 1] == '/'
    ensures EndsInSlash(pl.Then(Lits(text)).path)
  {
    assert pl.Then(Lits(text)).path[|pl.path| + |text| - 1] == Lits(text)[|text| - 1];
  }

  lemma WalkSpecial(f0: Forest, f: Forest, g: Forest, current: Node, pl: Place, steps: nat, size: nat, t: Token, result: Node)
    requires Walked(f0, f, current, pl, steps, size) && f.cells[current].kind == StaticNode
    requires !t.Lit? && SpecialInserted(f, g, current, t, result)
    ensures Walked(f0, g, result, pl.Then([t]), steps + 1, size)
    ensures t == Param ==> AtBoundary(g.cells[result])
  {
    MovedChain(f0, f, g);
    assert NodeOk(g, result);
  }

  // Stored routes have one name for each special token of their place, and start with '/'.
  ghost predicate GoodRoutes(routes: map<Place, Route>)
  {
    forall pl {:trigger routes[pl]} | pl in routes ::
      && Bounded(pl.path) && |routes[pl].names| == Specials(pl.path)
      && pl.path != [] && pl.path[0] == Lit('/')
  }

  // What one registration may add to the trees: nodes for its own tokens, one split, and its own text.
  ghost predicate Grown(f: Forest, g: Forest, verb: Verb, pattern: string)
  {
    var k := |ScanNames(pattern)|;
    && |g.cells| <= |f.cells| + 2 * k + 2 + (if verb in f.roots then 0 else 1)
    && TextSize(g.cells) + k <= TextSize(f.cells) + |ScanTokens(pattern)|
    && OneMoved(f, g)
  }

  lemma StoredGrown(f0: Forest, f: Forest, current: Node, verb: Verb, pattern: string, route: Route)
    requires WalkedAll(f0, f, current, verb, pattern)
    ensures Grown(f0, SetRoute(f, current, route), verb, pattern)
  {
    var g := SetRoute(f, current, route);
    TextSizeReplace(f.cells, current, g.cells[current]);
    assert g.cells.Keys == f.cells.Keys && |g.cells.Keys| == |f.cells.Keys|;
    forall n, m | n in f0.cells && m in f0.cells && Moved(f0, g, n) && Moved(f0, g, m) ensures n == m {
      assert Moved(f0, f, n) && Moved(f0, f, m);
    }
  }

  lemma StoredRoutes(f: Forest, current: Node, verb: Verb, pattern: string, route: Route, routes: map<Place, Route>)
    requires WellFormed(f) && current in f.cells && f.cells[current].place == Place(verb, ScanTokens(pattern))
    requires LeanExcept(f, current) && Denotes(f, routes) && GoodRoutes(routes)
    requires ValidPattern(pattern) && route.names == ScanNames(pattern)
    ensures Settled(SetRoute(f, current, route), routes[Place(verb, ScanTokens(pattern)) := route])
  {
    var g := SetRoute(f, current, route);
    SetRouteWellFormed(f, current, route);
    SetRouteDenotes(f, current, route, routes);
    ScanIsFaithful(pattern);
    forall m | m in g.cells ensures Lean(g.cells[m]) {
      assert m != current ==> Lean(f.cells[m]);
    }
  }

  // Between registrations: a well-formed tree with no dead branch that holds exactly these routes.
  ghost predicate Settled(f: Forest, routes: map<Place, Route>)
  {
    WellFormed(f) && AllLean(f) && Denotes(f, routes) && GoodRoutes(routes)
  }

  // A finished walk: `current` is the pattern's own place.
  ghost predicate WalkedAll(f0: Forest, f: Forest, current: Node, verb: Verb, pattern: string)
  {
    var k, k0 := |ScanNames(pattern)|, if verb in f0.roots then 0 else 1;
    && k <= |ScanTokens(pattern)|
    && Walked(f0, f, current, Place(verb, ScanTokens(pattern)), k0 + 2 * k + 1, |ScanTokens(pattern)| - k)
  }

  // ----- the invariant in plain terms -----

  lemma PrefixOfNode(f: Forest, n: Node)
    requires WellFormed(f) && n in f.cells
    ensures f.cells[n].prefix != "" <==> f.cells[n].kind == StaticNode && f.cells[n].place.path != []
  {
    assert NodeOk(f, n);
    if f.cells[n].place.path == [] {
      assert RootOk(f, f.cells[n].place.verb);
    } else {
      var p :| p in f.cells && IsChild(f, p, n);
      assert NodeOk(f, p);
      if n in f.cells[p].statics {
        assert StaticEdge(f, p, n);
        LitsKind(f.cells[p].place.path, f.cells[n].prefix);
      }
    }
  }

  /** The shape of every tree between registrations, node by node. */
  lemma TreeShape(f: Forest, routes: map<Place, Route>, n: Node)
    requires Settled(f, routes) && n in f.cells
    ensures var d := f.cells[n];
            // literal text is held by the static nodes below a root, and by them only
            && (d.prefix != "" <==> d.kind == StaticNode && d.place.path != [])
            // static siblings part at their first character
            && (forall i, j | 0 <= i < j < |d.statics| ::
                  && d.statics[i] in f.cells && d.statics[j] in f.cells
                  && First(f.cells[d.statics[i]].prefix) != First(f.cells[d.statics[j]].prefix))
            // special children follow a '/'
            && (HasSpecial(d) ==> d.kind == StaticNode && EndsInSlash(d.place.path))
            && (d.kind == ParameterNode ==> forall c | c in d.statics :: c in f.cells && First(f.cells[c].prefix) == Some('/'))
            // a catch-all is a leaf with a route, as is every leaf
            && (d.kind == CatchAllNode ==> d.statics == [] && d.route.Some?)
            && (d.statics == [] && !HasSpecial(d) ==> d.route.Some?)
            // a static node below a root has a route, a special child or two ways to go on
            && (d.kind == StaticNode && d.place.path != [] ==> d.route.Some? || HasSpecial(d) || |d.statics| >= 2)
  {
    var d := f.cells[n];
    assert NodeOk(f, n) && Lean(d);
    PrefixOfNode(f, n);
    forall c | c in d.statics ensures c in f.cells {
      assert StaticEdge(f, n, c);
    }
  }
}
