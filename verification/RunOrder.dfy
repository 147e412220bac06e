/** The order of registration: it leaves its mark on the order of siblings and on nothing else. */
module RunOrder {
  import opened HttpTypes
  import opened Tokens
  import opened Patterns
  import opened RadixTree
  import opened InsertionSteps
  import opened Lookup
  import opened Canonical
  import opened Reference
  import opened Routing
  import opened Runs

  // Every node of the one router has its like in the other.
  ghost predicate SameTrees(f: Forest, g: Forest)
  {
    && f.roots.Keys == g.roots.Keys
    && forall n | n in f.cells :: exists m :: m in g.cells && g.cells[m].place == f.cells[n].place && SameData(f.cells[n], g.cells[m])
  }

  lemma SettledSameTrees(f: Forest, g: Forest, routes: map<Place, Route>)
    requires Settled(f, routes) && Settled(g, routes)
    ensures SameTrees(f, g)
  {
    forall n | n in f.cells
      ensures exists m :: m in g.cells && g.cells[m].place == f.cells[n].place && SameData(f.cells[n], g.cells[m])
    {
      TreeIsCanonical(f, g, routes, n);
    }
    forall v ensures v in f.roots <==> v in g.roots {
      RootIffNode(f, v);
      RootIffNode(g, v);
      NodesAreNeeded(f, routes, Place(v, []));
      NodesAreNeeded(g, routes, Place(v, []));
    }
  }

  lemma RootIffNode(f: Forest, v: Verb)
    requires WellFormed(f)
    ensures v in f.roots <==> HasNode(f, Place(v, []))
  {
    if v in f.roots {
      assert RootOk(f, v);
    }
    if n :| n in f.cells && f.cells[n].place == Place(v, []) {
      VerbHasRoot(f, n);
    }
  }

  /** Two runs over the same registrations build the same trees, whatever the orders. */
  method ReplayBoth(a: seq<Registration>, b: seq<Registration>) returns (x: Router, y: Router)
    requires NoConflicts(a) && multiset(a) == multiset(b)
    ensures x.Valid() && y.Valid() && x.routes == y.routes == RegisterAll(a)
    ensures SameTrees(x.forest, y.forest) && SameTrees(y.forest, x.forest)
  {
    var verdicts;
    x, verdicts := Replay(a);
    y, verdicts := Replay(b);
    OrderIrrelevantForRoutes(a, b);
    SettledSameTrees(x.forest, y.forest, x.routes);
    SettledSameTrees(y.forest, x.forest, x.routes);
  }
}
