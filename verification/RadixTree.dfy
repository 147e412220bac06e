/** The routing tree: heap nodes, the shape they must have, and how each edit keeps it.
    The forest of all verbs is viewed as a value, so that every law about it is heap-free. */
module RadixTree {
  import opened HttpTypes
  import opened Tokens

  datatype NodeType = StaticNode | ParameterNode | CatchAllNode

  class Node {
    var kind: NodeType
    var prefix: string
    var statics: seq<Node>
    var parameter: Node?
    var catchAll: Node?
    var route: Option<Route>

    constructor ()
      ensures kind == StaticNode && prefix == "" && statics == []
      ensures parameter == null && catchAll == null && route == None
    {
      kind, prefix, statics := StaticNode, "", [];
      parameter, catchAll, route := null, null, None;
    }

    // Keeps the first n characters of the prefix, with no route and one child, which gets the rest of everything.
    method SplitOff(n: nat) returns (suffix: Node)
      requires n <= |prefix|
      modifies this
      ensures fresh(suffix)
      ensures suffix.kind == StaticNode && suffix.prefix == old(prefix)[n..] && suffix.statics == old(statics)
      ensures suffix.parameter == old(parameter) && suffix.catchAll == old(catchAll) && suffix.route == old(route)
      ensures kind == old(kind) && prefix == old(prefix)[..n] && statics == [suffix]
      ensures parameter == null && catchAll == null && route == None
    {
      suffix := new Node();
      suffix.kind := StaticNode;
      suffix.prefix := prefix[n..];
      suffix.statics := statics;
      suffix.parameter := parameter;
      suffix.catchAll := catchAll;
      suffix.route := route;

      prefix := prefix[..n];
      statics := [];
      parameter, catchAll := null, null;
      route := None;

      statics := statics + [suffix];
    }

    // The node's fields are those of the cell; its place is kept by the router.
    ghost predicate Matches(d: Cell)
      reads this
    {
      && d.kind == kind && d.prefix == prefix && d.statics == statics
      && d.parameter == parameter && d.catchAll == catchAll && d.route == route
    }
  }

  // Where a node stands: the tree of one verb, and the tokens spelled from its root.
  datatype Place = Place(verb: Verb, path: Path) {
    function Then(ts: Path): Place { Place(verb, path + ts) }
  }

  predicate Under(a: Place, b: Place) { a.verb == b.verb && a.path <= b.path }

  datatype Cell = Cell(place: Place, kind: NodeType, prefix: string, statics: seq<Node>,
                       parameter: Node?, catchAll: Node?, route: Option<Route>)

  datatype Forest = Forest(roots: map<Verb, Node>, cells: map<Node, Cell>)

  // ----- well-formedness, node by node -----

  function KindOf(path: Path): NodeType
  {
    if path == [] then StaticNode
    else match path[|path| - 1]
      case Lit(_) => StaticNode
      case Param => ParameterNode
      case CatchAll => CatchAllNode
  }

  predicate EndsInSlash(path: Path) { path != [] && path[|path| - 1] == Lit('/') }

  function First(s: string): Option<char> { if s == "" then None else Some(s[0]) }

  ghost predicate IsChild(f: Forest, p: Node, c: Node)
  {
    && p in f.cells && c in f.cells
    && (c in f.cells[p].statics || f.cells[p].parameter == c || f.cells[p].catchAll == c)
  }

  ghost predicate StaticEdge(f: Forest, n: Node, c: Node)
    requires n in f.cells
  {
    && c in f.cells
    && f.cells[c].prefix != ""
    && f.cells[c].place == f.cells[n].place.Then(Lits(f.cells[c].prefix))
  }

  ghost predicate SpecialEdge(f: Forest, n: Node, c: Node?, t: Token)
    requires n in f.cells
  {
    c != null ==>
      && c in f.cells
      && f.cells[c].prefix == ""
      && f.cells[c].place == f.cells[n].place.Then([t])
      && EndsInSlash(f.cells[n].place.path)
  }

  // Distinct static children start with distinct characters.
  ghost predicate SiblingsDiffer(f: Forest, cs: seq<Node>)
  {
    forall i, j | 0 <= i < j < |cs| && cs[i] in f.cells && cs[j] in f.cells ::
      First(f.cells[cs[i]].prefix) != First(f.cells[cs[j]].prefix)
  }

  ghost predicate Anchored(f: Forest, n: Node)
    requires n in f.cells
  {
    var pl := f.cells[n].place;
    if pl.path == [] then pl.verb in f.roots && f.roots[pl.verb] == n
    else exists p {:trigger IsChild(f, p, n)} :: p in f.cells && IsChild(f, p, n)
  }

  ghost predicate ChildrenOk(f: Forest, n: Node)
    requires n in f.cells
  {
    var d := f.cells[n];
    && (forall c | c in d.statics :: StaticEdge(f, n, c))
    && SpecialEdge(f, n, d.parameter, Param)
    && SpecialEdge(f, n, d.catchAll, CatchAll)
    && (d.kind == ParameterNode ==> forall c | c in d.statics :: First(f.cells[c].prefix) == Some('/'))
    && (d.kind == CatchAllNode ==> d.statics == [])
  }

  ghost predicate NodeOk(f: Forest, n: Node)
    requires n in f.cells
  {
    var d := f.cells[n];
    && d.kind == KindOf(d.place.path)
    && Anchored(f, n)
    && ChildrenOk(f, n)
    && SiblingsDiffer(f, d.statics)
  }

  ghost predicate RootOk(f: Forest, v: Verb)
    requires v in f.roots
  {
    f.roots[v] in f.cells && f.cells[f.roots[v]].place == Place(v, []) && f.cells[f.roots[v]].prefix == ""
  }

  ghost predicate WellFormed(f: Forest)
  {
    && (forall v {:trigger RootOk(f, v)} | v in f.roots :: RootOk(f, v))
    && (forall n {:trigger NodeOk(f, n)} | n in f.cells :: NodeOk(f, n))
  }

  // ----- what well-formedness gives: a real tree -----

  lemma ChildPlace(f: Forest, p: Node, c: Node)
    requires WellFormed(f) && IsChild(f, p, c)
    ensures Under(f.cells[p].place, f.cells[c].place)
    ensures |f.cells[p].place.path| < |f.cells[c].place.path|
    ensures var next := f.cells[c].place.path[|f.cells[p].place.path|];
            && (c in f.cells[p].statics ==> First(f.cells[c].prefix).Some? && next == Lit(f.cells[c].prefix[0]))
            && (f.cells[p].parameter == c ==> next == Param)
            && (f.cells[p].catchAll == c ==> next == CatchAll)
  {
    assert NodeOk(f, p);
  }

  lemma SiblingsDiverge(f: Forest, p: Node, a: Node, b: Node)
    requires WellFormed(f) && IsChild(f, p, a) && IsChild(f, p, b)
    requires |f.cells[p].place.path| < |f.cells[a].place.path| && |f.cells[p].place.path| < |f.cells[b].place.path|
    requires f.cells[a].place.path[|f.cells[p].place.path|] == f.cells[b].place.path[|f.cells[p].place.path|]
    ensures a == b
  {
    ChildPlace(f, p, a);
    ChildPlace(f, p, b);
    assert NodeOk(f, p);
  }

  // Two children of `p` on the way to one place are the same child.
  lemma OneChildTowards(f: Forest, p: Node, a: Node, b: Node, goal: Place)
    requires WellFormed(f) && IsChild(f, p, a) && IsChild(f, p, b)
    requires Under(f.cells[a].place, goal) && Under(f.cells[b].place, goal)
    ensures a == b
  {
    ChildPlace(f, p, a);
    ChildPlace(f, p, b);
    var k := |f.cells[p].place.path|;
    assert f.cells[a].place.path[k] == goal.path[k] == f.cells[b].place.path[k];
    SiblingsDiverge(f, p, a, b);
  }

  lemma UnderMeets(a: Place, b: Place, goal: Place)
    requires Under(a, goal) && Under(b, goal)
    ensures |a.path| <= |b.path| ==> Under(a, b)
    ensures |a.path| == |b.path| ==> a == b
  {
  }

  /** A place belongs to one node only. */
  lemma {:induction false} SamePlace(f: Forest, a: Node, b: Node)
    requires WellFormed(f) && a in f.cells && b in f.cells
    requires f.cells[a].place == f.cells[b].place
    ensures a == b
    decreases |f.cells[a].place.path|, 0
  {
    var goal := f.cells[a].place;
    assert NodeOk(f, a) && NodeOk(f, b);
    if goal.path != [] {
      var p :| p in f.cells && IsChild(f, p, a);
      var q :| q in f.cells && IsChild(f, q, b);
      ChildPlace(f, p, a);
      ChildPlace(f, q, b);
      UnderMeets(f.cells[p].place, f.cells[q].place, goal);
      UnderMeets(f.cells[q].place, f.cells[p].place, goal);
      if |f.cells[p].place.path| < |f.cells[q].place.path| {
        var c := Descend(f, p, q);
        OneChildTowards(f, p, c, a, goal);
      } else if |f.cells[q].place.path| < |f.cells[p].place.path| {
        var c := Descend(f, q, p);
        OneChildTowards(f, q, c, b, goal);
      } else {
        SamePlace(f, p, q);
        OneChildTowards(f, p, a, b, goal);
      }
    }
  }

  /** Every node strictly below `n` is reached through a child of `n`. */
  lemma {:induction false} Descend(f: Forest, n: Node, m: Node) returns (c: Node)
    requires WellFormed(f) && n in f.cells && m in f.cells
    requires Under(f.cells[n].place, f.cells[m].place)
    requires |f.cells[n].place.path| < |f.cells[m].place.path|
    ensures IsChild(f, n, c) && Under(f.cells[c].place, f.cells[m].place)
    decreases |f.cells[m].place.path|, 1
  {
    var goal := f.cells[m].place;
    assert NodeOk(f, m);
    var p :| p in f.cells && IsChild(f, p, m);
    ChildPlace(f, p, m);
    UnderMeets(f.cells[n].place, f.cells[p].place, goal);
    UnderMeets(f.cells[p].place, f.cells[n].place, goal);
    if |f.cells[n].place.path| == |f.cells[p].place.path| {
      SamePlace(f, n, p);
      c := m;
    } else if |f.cells[n].place.path| < |f.cells[p].place.path| {
      c := Descend(f, n, p);
    } else {
      c := Descend(f, p, n);
      OneChildTowards(f, p, c, m, goal);
    }
  }

  /** Nodes are uniquely owned: no node hangs off two parents. */
  lemma UniqueParent(f: Forest, p: Node, q: Node, c: Node)
    requires WellFormed(f) && IsChild(f, p, c) && IsChild(f, q, c)
    ensures p == q
  {
    ChildPlace(f, p, c);
    ChildPlace(f, q, c);
    var goal := f.cells[c].place;
    UnderMeets(f.cells[p].place, f.cells[q].place, goal);
    UnderMeets(f.cells[q].place, f.cells[p].place, goal);
    if |f.cells[p].place.path| < |f.cells[q].place.path| {
      var d := Descend(f, p, q);
      OneChildTowards(f, p, c, d, goal);
    } else if |f.cells[q].place.path| < |f.cells[p].place.path| {
      var d := Descend(f, q, p);
      OneChildTowards(f, q, c, d, goal);
    } else {
      SamePlace(f, p, q);
    }
  }
}
