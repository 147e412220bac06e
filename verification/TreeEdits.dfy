/** The edits that registration makes to the tree, as functions on forests, and what each one keeps. */
module TreeEdits {
  import opened HttpTypes
  import opened Tokens
  import opened RadixTree

  // ----- the routes a forest denotes -----

  ghost predicate Holder(f: Forest, pl: Place, n: Node)
    requires n in f.cells
  {
    f.cells[n].place == pl && f.cells[n].route.Some?
  }

  ghost predicate Denotes(f: Forest, routes: map<Place, Route>)
  {
    && (forall n {:trigger f.cells[n].route} | n in f.cells && f.cells[n].route.Some? ::
          f.cells[n].place in routes && routes[f.cells[n].place] == f.cells[n].route.value)
    && (forall pl | pl in routes :: exists n :: n in f.cells && Holder(f, pl, n))
  }

  lemma RouteAtNode(f: Forest, routes: map<Place, Route>, n: Node)
    requires WellFormed(f) && Denotes(f, routes) && n in f.cells
    ensures f.cells[n].route == if f.cells[n].place in routes then Some(routes[f.cells[n].place]) else None
  {
    var pl := f.cells[n].place;
    if pl in routes {
      var m :| m in f.cells && Holder(f, pl, m);
      SamePlace(f, m, n);
    }
  }

  // ----- path compression -----

  predicate HasSpecial(d: Cell) { d.parameter != null || d.catchAll != null }

  // No dead branch ends here, and a static node earns its keep.
  predicate Lean(d: Cell)
  {
    && (d.statics == [] && !HasSpecial(d) ==> d.route.Some?)
    && (d.kind == StaticNode && d.place.path != [] ==> d.route.Some? || HasSpecial(d) || |d.statics| >= 2)
  }

  ghost predicate LeanExcept(f: Forest, n: Node) { forall m {:trigger Lean(f.cells[m])} | m in f.cells && m != n :: Lean(f.cells[m]) }

  ghost predicate AllLean(f: Forest) { forall m {:trigger Lean(f.cells[m])} | m in f.cells :: Lean(f.cells[m]) }

  predicate RouteFree(d: Cell) { d.route == None && !HasSpecial(d) }

  // ----- splitting a static node -----

  lemma LitsKind(base: Path, s: string)
    requires s != ""
    ensures KindOf(base + Lits(s)) == StaticNode && base + Lits(s) != []
  {
    var path := base + Lits(s);
    assert path[|path| - 1] == Lit(s[|s| - 1]);
  }

  lemma LitsAlong(base: Place, a: string, b: string)
    ensures base.Then(Lits(a)).Then(Lits(b)) == base.Then(Lits(a + b))
  {
    LitsConcat(a, b);
  }

  lemma SiblingsKept(f: Forest, g: Forest, cs: seq<Node>)
    requires SiblingsDiffer(f, cs)
    requires forall x | x in cs :: x in f.cells && x in g.cells && First(g.cells[x].prefix) == First(f.cells[x].prefix)
    ensures SiblingsDiffer(g, cs)
  {
    forall i, j | 0 <= i < j < |cs| ensures First(g.cells[cs[i]].prefix) != First(g.cells[cs[j]].prefix) {
      assert cs[i] in cs && cs[j] in cs;
    }
  }

  // `c`, a static child of `p`, keeps the first k characters and hands everything else to `suffix`.
  ghost function Split(f: Forest, p: Node, c: Node, k: nat, suffix: Node): Forest
    requires p in f.cells && c in f.cells && k <= |f.cells[c].prefix|
  {
    var d := f.cells[c];
    var head := Cell(f.cells[p].place.Then(Lits(d.prefix[..k])), StaticNode, d.prefix[..k], [suffix], null, null, None);
    var tail := d.(kind := StaticNode, prefix := d.prefix[k..]);
    f.(cells := f.cells[c := head][suffix := tail])
  }

  ghost predicate Splittable(f: Forest, p: Node, c: Node, k: nat, suffix: Node)
  {
    && WellFormed(f) && p in f.cells && c in f.cells && c in f.cells[p].statics
    && 0 < k < |f.cells[c].prefix| && suffix !in f.cells
  }

  lemma SplitBasics(f: Forest, p: Node, c: Node, k: nat, suffix: Node)
    requires Splittable(f, p, c, k, suffix)
    ensures p != c && IsChild(f, p, c) && f.cells[c].place.path != [] && f.cells[c].kind == StaticNode
    ensures forall n | IsChild(f, n, c) :: n == p
    ensures forall n | IsChild(f, c, n) :: n != c
  {
    assert NodeOk(f, p) && NodeOk(f, c);
    ChildPlace(f, p, c);
    LitsKind(f.cells[p].place.path, f.cells[c].prefix);
    forall n | IsChild(f, n, c) ensures n == p {
      UniqueParent(f, n, p, c);
    }
    forall n | IsChild(f, c, n) ensures n != c {
      ChildPlace(f, c, n);
    }
  }

  lemma SplitTwo(f: Forest, p: Node, c: Node, k: nat, suffix: Node)
    requires Splittable(f, p, c, k, suffix)
    ensures NodeOk(Split(f, p, c, k, suffix), c)
    ensures NodeOk(Split(f, p, c, k, suffix), suffix)
  {
    var g := Split(f, p, c, k, suffix);
    var prefix, base := f.cells[c].prefix, f.cells[p].place;
    SplitBasics(f, p, c, k, suffix);
    assert NodeOk(f, c) && StaticEdge(f, p, c) by {
      assert NodeOk(f, p);
    }
    LitsKind(base.path, prefix[..k]);
    LitsAlong(base, prefix[..k], prefix[k..]);
    assert prefix[..k] + prefix[k..] == prefix;
    assert IsChild(g, p, c) && IsChild(g, c, suffix);
    forall x | x in f.cells[c].statics ensures StaticEdge(g, suffix, x) && x != c {
      assert StaticEdge(f, c, x) && IsChild(f, c, x);
    }
    SiblingsKept(f, g, f.cells[c].statics);
  }

  // Every other node keeps its cell, and its parent unless that was the split node.
  lemma SplitOther(f: Forest, p: Node, c: Node, k: nat, suffix: Node, n: Node)
    requires Splittable(f, p, c, k, suffix) && n in f.cells && n != c
    ensures NodeOk(Split(f, p, c, k, suffix), n)
  {
    var g := Split(f, p, c, k, suffix);
    SplitBasics(f, p, c, k, suffix);
    assert NodeOk(f, n);
    if f.cells[n].place.path != [] {
      var q :| q in f.cells && IsChild(f, q, n);
      assert IsChild(g, if q == c then suffix else q, n);
    }
    forall x | x in f.cells[n].statics ensures StaticEdge(g, n, x) {
      assert StaticEdge(f, n, x) && IsChild(f, n, x);
    }
    SiblingsKept(f, g, f.cells[n].statics);
  }

  /** Splitting a static node keeps the tree well-formed. */
  lemma SplitWellFormed(f: Forest, p: Node, c: Node, k: nat, suffix: Node)
    requires Splittable(f, p, c, k, suffix)
    ensures WellFormed(Split(f, p, c, k, suffix))
  {
    var g := Split(f, p, c, k, suffix);
    SplitBasics(f, p, c, k, suffix);
    SplitTwo(f, p, c, k, suffix);
    forall n | n in g.cells ensures NodeOk(g, n) {
      if n != c && n != suffix {
        SplitOther(f, p, c, k, suffix, n);
      }
    }
    forall v | v in g.roots ensures RootOk(g, v) {
      assert RootOk(f, v);
    }
  }

  /** ... and it keeps the set of routes. */
  lemma SplitDenotes(f: Forest, p: Node, c: Node, k: nat, suffix: Node, routes: map<Place, Route>)
    requires Splittable(f, p, c, k, suffix) && Denotes(f, routes)
    ensures Denotes(Split(f, p, c, k, suffix), routes)
  {
    var g := Split(f, p, c, k, suffix);
    forall pl | pl in routes ensures exists n :: n in g.cells && Holder(g, pl, n) {
      var n :| n in f.cells && Holder(f, pl, n);
      assert Holder(g, pl, if n == c then suffix else n);
    }
  }

  /** A split in a lean tree leaves only the split node to be completed. */
  lemma SplitLean(f: Forest, p: Node, c: Node, k: nat, suffix: Node)
    requires Splittable(f, p, c, k, suffix) && AllLean(f)
    ensures LeanExcept(Split(f, p, c, k, suffix), c)
  {
    SplitBasics(f, p, c, k, suffix);
    assert Lean(f.cells[c]);
  }

  // ----- hanging a new leaf -----

  ghost function Leaf(place: Place, kind: NodeType, prefix: string): Cell
  {
    Cell(place, kind, prefix, [], null, null, None)
  }

  ghost function AddStatic(f: Forest, p: Node, text: string, leaf: Node): Forest
    requires p in f.cells
  {
    var d := f.cells[p];
    f.(cells := f.cells[p := d.(statics := d.statics + [leaf])][leaf := Leaf(d.place.Then(Lits(text)), StaticNode, text)])
  }

  ghost predicate FitsStatic(f: Forest, p: Node, text: string)
    requires p in f.cells
  {
    exists c :: c in f.cells[p].statics && c in f.cells && text != "" && First(f.cells[c].prefix) == First(text)
  }

  ghost predicate StaticAddable(f: Forest, p: Node, text: string, leaf: Node)
  {
    && WellFormed(f) && p in f.cells && leaf !in f.cells
    && text != "" && !FitsStatic(f, p, text)
    && f.cells[p].kind != CatchAllNode
    && (f.cells[p].kind == ParameterNode ==> text[0] == '/')
  }

  // The two ways of hanging a leaf below `p` leave every other node as it was.
  ghost predicate Hangs(f: Forest, g: Forest, p: Node, leaf: Node)
  {
    && p in f.cells && leaf !in f.cells && g.roots == f.roots
    && g.cells.Keys == f.cells.Keys + {leaf}
    && (forall n | n in f.cells && n != p :: g.cells[n] == f.cells[n])
    && g.cells[p].place == f.cells[p].place && g.cells[p].kind == f.cells[p].kind
    && g.cells[p].prefix == f.cells[p].prefix && g.cells[p].route == f.cells[p].route
    && f.cells[p].statics <= g.cells[p].statics
    && (f.cells[p].parameter != null ==> g.cells[p].parameter == f.cells[p].parameter)
    && (f.cells[p].catchAll != null ==> g.cells[p].catchAll == f.cells[p].catchAll)
    && g.cells[leaf].route == None
  }

  lemma HangAnchors(f: Forest, g: Forest, p: Node, leaf: Node, n: Node)
    requires WellFormed(f) && Hangs(f, g, p, leaf) && n in f.cells
    ensures Anchored(g, n)
  {
    assert NodeOk(f, n);
    if f.cells[n].place.path != [] {
      var q :| q in f.cells && IsChild(f, q, n);
      assert IsChild(g, q, n);
    }
  }

  lemma HangOther(f: Forest, g: Forest, p: Node, leaf: Node, n: Node)
    requires WellFormed(f) && Hangs(f, g, p, leaf) && n in f.cells && n != p
    ensures NodeOk(g, n)
  {
    HangAnchors(f, g, p, leaf, n);
    assert NodeOk(f, n);
    forall x | x in f.cells[n].statics ensures StaticEdge(g, n, x) {
      assert StaticEdge(f, n, x);
    }
    SiblingsKept(f, g, f.cells[n].statics);
  }

  lemma HangWellFormed(f: Forest, g: Forest, p: Node, leaf: Node)
    requires WellFormed(f) && Hangs(f, g, p, leaf)
    requires NodeOk(g, p) && NodeOk(g, leaf)
    ensures WellFormed(g)
  {
    forall n | n in g.cells ensures NodeOk(g, n) {
      if n != p && n != leaf {
        HangOther(f, g, p, leaf, n);
      }
    }
    forall v | v in g.roots ensures RootOk(g, v) {
      assert RootOk(f, v);
    }
  }

  lemma HangDenotes(f: Forest, g: Forest, p: Node, leaf: Node, routes: map<Place, Route>)
    requires Hangs(f, g, p, leaf) && Denotes(f, routes)
    ensures Denotes(g, routes)
  {
    forall pl | pl in routes ensures exists n :: n in g.cells && Holder(g, pl, n) {
      var n :| n in f.cells && Holder(f, pl, n);
      assert Holder(g, pl, n);
    }
  }

  lemma AddStaticParent(f: Forest, p: Node, text: string, leaf: Node)
    requires StaticAddable(f, p, text, leaf)
    ensures NodeOk(AddStatic(f, p, text, leaf), p)
  {
    var g := AddStatic(f, p, text, leaf);
    var cs := f.cells[p].statics;
    HangAnchors(f, g, p, leaf, p);
    assert NodeOk(f, p);
    forall x | x in cs ensures StaticEdge(g, p, x) {
      assert StaticEdge(f, p, x);
    }
    SiblingsKept(f, g, cs);
    forall i, j | 0 <= i < j < |cs + [leaf]|
      ensures First(g.cells[(cs + [leaf])[i]].prefix) != First(g.cells[(cs + [leaf])[j]].prefix)
    {
      assert cs[i] in cs;
      if j < |cs| {
        assert cs[j] in cs;
      }
    }
  }

  /** Adding a static leaf keeps the tree well-formed. */
  lemma AddStaticWellFormed(f: Forest, p: Node, text: string, leaf: Node)
    requires StaticAddable(f, p, text, leaf)
    ensures WellFormed(AddStatic(f, p, text, leaf))
  {
    var g := AddStatic(f, p, text, leaf);
    AddStaticParent(f, p, text, leaf);
    LitsKind(f.cells[p].place.path, text);
    assert IsChild(g, p, leaf) by {
      assert leaf == g.cells[p].statics[|f.cells[p].statics|];
    }
    HangWellFormed(f, g, p, leaf);
  }

  lemma AddStaticLean(f: Forest, p: Node, text: string, leaf: Node)
    requires StaticAddable(f, p, text, leaf) && LeanExcept(f, p)
    requires f.cells[p].kind == StaticNode && f.cells[p].place.path != [] ==> f.cells[p].route.Some? || HasSpecial(f.cells[p]) || f.cells[p].statics != []
    ensures LeanExcept(AddStatic(f, p, text, leaf), leaf)
  {
  }

  ghost function AddSpecial(f: Forest, p: Node, t: Token, leaf: Node): Forest
    requires p in f.cells
  {
    var d := f.cells[p];
    var e := if t == Param then d.(parameter := leaf) else d.(catchAll := leaf);
    f.(cells := f.cells[p := e][leaf := Leaf(d.place.Then([t]), KindOf([t]), "")])
  }

  ghost predicate SpecialAddable(f: Forest, p: Node, t: Token, leaf: Node)
  {
    && WellFormed(f) && p in f.cells && leaf !in f.cells && !t.Lit?
    && (if t == Param then f.cells[p].parameter else f.cells[p].catchAll) == null
    && EndsInSlash(f.cells[p].place.path)
  }

  /** Adding a parameter or catch-all child after a '/' keeps the tree well-formed. */
  lemma AddSpecialWellFormed(f: Forest, p: Node, t: Token, leaf: Node)
    requires SpecialAddable(f, p, t, leaf)
    ensures WellFormed(AddSpecial(f, p, t, leaf))
  {
    var g := AddSpecial(f, p, t, leaf);
    HangAnchors(f, g, p, leaf, p);
    assert NodeOk(f, p);
    forall x | x in f.cells[p].statics ensures StaticEdge(g, p, x) {
      assert StaticEdge(f, p, x);
    }
    SiblingsKept(f, g, f.cells[p].statics);
    assert NodeOk(g, p);
    assert IsChild(g, p, leaf);
    assert NodeOk(g, leaf);
    HangWellFormed(f, g, p, leaf);
  }

  // ----- new roots, new routes -----

  ghost function AddRoot(f: Forest, v: Verb, root: Node): Forest
  {
    Forest(f.roots[v := root], f.cells[root := Leaf(Place(v, []), StaticNode, "")])
  }

  lemma AddRootWellFormed(f: Forest, v: Verb, root: Node)
    requires WellFormed(f) && v !in f.roots && root !in f.cells
    ensures WellFormed(AddRoot(f, v, root))
  {
    var g := AddRoot(f, v, root);
    forall n | n in g.cells ensures NodeOk(g, n) {
      if n != root {
        assert NodeOk(f, n);
        if f.cells[n].place.path != [] {
          var q :| q in f.cells && IsChild(f, q, n);
          assert IsChild(g, q, n);
        }
        forall x | x in f.cells[n].statics ensures StaticEdge(g, n, x) {
          assert StaticEdge(f, n, x);
        }
        SiblingsKept(f, g, f.cells[n].statics);
      }
    }
    forall u | u in g.roots ensures RootOk(g, u) {
      assert u != v ==> RootOk(f, u);
    }
  }

  lemma AddRootDenotes(f: Forest, v: Verb, root: Node, routes: map<Place, Route>)
    requires root !in f.cells && Denotes(f, routes)
    ensures Denotes(AddRoot(f, v, root), routes)
  {
    var g := AddRoot(f, v, root);
    forall pl | pl in routes ensures exists n :: n in g.cells && Holder(g, pl, n) {
      var n :| n in f.cells && Holder(f, pl, n);
      assert Holder(g, pl, n);
    }
  }

  ghost function SetRoute(f: Forest, n: Node, r: Route): Forest
    requires n in f.cells
  {
    f.(cells := f.cells[n := f.cells[n].(route := Some(r))])
  }

  lemma SetRouteWellFormed(f: Forest, n: Node, r: Route)
    requires WellFormed(f) && n in f.cells
    ensures WellFormed(SetRoute(f, n, r))
  {
    var g := SetRoute(f, n, r);
    forall m | m in g.cells ensures NodeOk(g, m) {
      assert NodeOk(f, m);
      if f.cells[m].place.path != [] {
        var q :| q in f.cells && IsChild(f, q, m);
        assert IsChild(g, q, m);
      }
      forall x | x in f.cells[m].statics ensures StaticEdge(g, m, x) {
        assert StaticEdge(f, m, x);
      }
      SiblingsKept(f, g, f.cells[m].statics);
    }
    forall v | v in g.roots ensures RootOk(g, v) {
      assert RootOk(f, v);
    }
  }

  /** Storing a route at a node adds exactly that node's place to the denoted routes. */
  lemma SetRouteDenotes(f: Forest, n: Node, r: Route, routes: map<Place, Route>)
    requires WellFormed(f) && n in f.cells && Denotes(f, routes)
    ensures Denotes(SetRoute(f, n, r), routes[f.cells[n].place := r])
  {
    var g, all := SetRoute(f, n, r), routes[f.cells[n].place := r];
    forall m | m in g.cells && g.cells[m].route.Some?
      ensures g.cells[m].place in all && all[g.cells[m].place] == g.cells[m].route.value
    {
      if m != n && f.cells[m].place == f.cells[n].place {
        SamePlace(f, m, n);
      }
    }
    forall pl | pl in all ensures exists m :: m in g.cells && Holder(g, pl, m) {
      if pl == f.cells[n].place {
        assert Holder(g, pl, n);
      } else {
        var m :| m in f.cells && Holder(f, pl, m);
        assert Holder(g, pl, m);
      }
    }
  }

  // ----- how many nodes there are, and how much text they hold -----

  lemma OneMoreNode(f: Forest, g: Forest, n: Node)
    requires n !in f.cells && g.cells.Keys == f.cells.Keys + {n}
    ensures |g.cells| == |f.cells| + 1
  {
    assert |f.cells| == |f.cells.Keys| && |g.cells| == |g.cells.Keys|;
  }

  ghost function TextSize(cells: map<Node, Cell>): nat
    decreases |cells|
  {
    if cells == map[] then 0
    else
      var n :| n in cells;
      |cells[n].prefix| + TextSize(cells - {n})
  }

  lemma {:induction false} TextSizePick(cells: map<Node, Cell>, n: Node)
    requires n in cells
    ensures TextSize(cells) == |cells[n].prefix| + TextSize(cells - {n})
    decreases |cells|
  {
    var m :| m in cells && TextSize(cells) == |cells[m].prefix| + TextSize(cells - {m});
    if m != n {
      TextSizePick(cells - {m}, n);
      TextSizePick(cells - {n}, m);
      assert cells - {m} - {n} == cells - {n} - {m};
    }
  }

  lemma TextSizeUpdate(cells: map<Node, Cell>, n: Node, d: Cell)
    ensures TextSize(cells[n := d]) == TextSize(cells - {n}) + |d.prefix|
  {
    TextSizePick(cells[n := d], n);
    assert cells[n := d] - {n} == cells - {n};
  }

  lemma TextSizeReplace(cells: map<Node, Cell>, n: Node, d: Cell)
    ensures TextSize(cells[n := d]) + (if n in cells then |cells[n].prefix| else 0) == TextSize(cells) + |d.prefix|
  {
    TextSizeUpdate(cells, n, d);
    if n in cells {
      TextSizePick(cells, n);
    } else {
      assert cells - {n} == cells;
    }
  }

  /** A split moves text between two nodes; a new leaf brings its own. */
  lemma SplitTextSize(f: Forest, p: Node, c: Node, k: nat, suffix: Node)
    requires Splittable(f, p, c, k, suffix)
    ensures TextSize(Split(f, p, c, k, suffix).cells) == TextSize(f.cells)
  {
    var g := Split(f, p, c, k, suffix);
    TextSizeReplace(f.cells, c, g.cells[c]);
    TextSizeReplace(f.cells[c := g.cells[c]], suffix, g.cells[suffix]);
  }

  lemma HangTextSize(f: Forest, g: Forest, p: Node, leaf: Node)
    requires Hangs(f, g, p, leaf)
    ensures TextSize(g.cells) == TextSize(f.cells) + |g.cells[leaf].prefix|
  {
    TextSizeReplace(f.cells, p, g.cells[p]);
    TextSizeReplace(f.cells[p := g.cells[p]], leaf, g.cells[leaf]);
    assert g.cells == f.cells[p := g.cells[p]][leaf := g.cells[leaf]];
  }
}
