/** The Router class: registration walks and edits the heap tree, lookup searches it. */
module Routing {
  import opened HttpTypes
  import opened Text
  import opened Tokens
  import opened Patterns
  import opened RadixTree
  import opened TreeEdits
  import opened InsertionSteps
  import opened Lookup

  // The captures of one lookup, shared by all its recursive calls.
  class CaptureStack {
    var values: seq<string>

    constructor ()
      ensures values == []
    {
      values := [];
    }
  }

  class Router {
    var roots: map<Verb, Node>
    ghost var forest: Forest                 // the trees of all verbs, as a value
    ghost var routes: map<Place, Route>      // the routes registered so far
    ghost var entered: seq<Node>             // the nodes that lookups have entered, in order

    // The forest describes the nodes on the heap.
    ghost predicate InSync()
      reads this`roots, this`forest, forest.cells.Keys
    {
      && forest.roots == roots
      && forall n {:trigger n.Matches(forest.cells[n])} | n in forest.cells :: n.Matches(forest.cells[n])
    }

    method SplitNode(parent: Node, child: Node, n: nat) returns (suffix: Node)
      requires InSync() && WellFormed(forest)
      requires parent in forest.cells && child in forest.cells && child in forest.cells[parent].statics
      requires 0 < n < |forest.cells[child].prefix|
      modifies child, this`forest
      ensures InSync() && fresh(suffix)
      ensures suffix !in old(forest.cells) && forest == Split(old(forest), parent, child, n, suffix)
    {
      assert child.Matches(forest.cells[child]);
      suffix := child.SplitOff(n);
      SplitBasics(forest, parent, child, n, suffix);
      forest := Split(forest, parent, child, n, suffix);
      forall x | x in forest.cells ensures x.Matches(forest.cells[x]) {
        if x != child && x != suffix {
          assert old(x.Matches(forest.cells[x]));
        }
      }
    }

    method AttachStatic(parent: Node, text: string) returns (leaf: Node)
      requires InSync() && parent in forest.cells
      modifies parent, this`forest
      ensures InSync() && fresh(leaf)
      ensures leaf !in old(forest.cells) && forest == AddStatic(old(forest), parent, text, leaf)
    {
      assert parent.Matches(forest.cells[parent]);
      var child := new Node();
      child.kind := StaticNode;
      child.prefix := text;

      leaf := child;
      parent.statics := parent.statics + [child];
      forest := AddStatic(forest, parent, text, leaf);
      forall x | x in forest.cells ensures x.Matches(forest.cells[x]) {
        if x != parent && x != leaf {
          assert old(x.Matches(forest.cells[x]));
        }
      }
    }

    method InsertStatic(parent: Node, text: string) returns (result: Node)
      requires InSync() && StaticReady(forest, parent, text) && Denotes(forest, routes)
      modifies this`forest, forest.cells.Keys
      ensures InSync() && forall n | n in forest.cells :: n in old(forest.cells) || fresh(n)
      ensures StaticInserted(old(forest), forest, parent, text, result) && Denotes(forest, routes)
      decreases |text|, 1
    {
      if text == "" {
        return parent;
      }
      ghost var f := forest;
      assert parent.Matches(f.cells[parent]);
      for i := 0 to |parent.statics|
        invariant forest == f && InSync() && parent.statics == f.cells[parent].statics
        invariant forall c | c in parent.statics[..i] :: c in f.cells && First(f.cells[c].prefix) != First(text)
      {
        var child := parent.statics[i];
        StaticChild(f, parent, child);
        assert child.Matches(f.cells[child]);
        if child.kind != StaticNode || child.prefix[0] != text[0] {
          continue;
        }
        result := EnterStatic(parent, child, text);
        return;
      }
      assert parent.statics[..|parent.statics|] == parent.statics;
      assert !FitsStatic(f, parent, text);
      result := AttachStatic(parent, text);
      NewLeafInserted(f, parent, text, result, routes);
    }

    // The child that shares the text's first character: split it if the text leaves it half way, then go on inside it.
    method EnterStatic(parent: Node, child: Node, text: string) returns (result: Node)
      requires InSync() && StaticReady(forest, parent, text) && Denotes(forest, routes)
      requires child in forest.cells && child in forest.cells[parent].statics
      requires text != "" && First(forest.cells[child].prefix) == First(text)
      modifies this`forest, forest.cells.Keys
      ensures InSync() && forall n | n in forest.cells :: n in old(forest.cells) || fresh(n)
      ensures StaticInserted(old(forest), forest, parent, text, result) && Denotes(forest, routes)
      decreases |text|, 0
    {
      ghost var f := forest;
      assert child.Matches(f.cells[child]);
      var n := CommonPrefix(child.prefix, text);
      assert Shares(f, parent, text, child, n);
      if n < |child.prefix| {
        var suffix := SplitNode(parent, child, n);
        SplitReady(f, parent, text, child, n, suffix);
        SplitDenotes(f, parent, child, n, suffix, routes);
        assert SplitIfShort(f, forest, parent, child, n);
      } else {
        FollowReady(f, parent, text, child, n);
      }
      ghost var h := forest;
      result := InsertStatic(child, text[n..]);
      Entered(f, h, forest, parent, text, child, n, result);
    }

    method InsertSpecial(parent: Node, kind: NodeType) returns (r: Result<Node, RouteError>)
      requires InSync() && WellFormed(forest) && Denotes(forest, routes)
      requires parent in forest.cells && LeanExcept(forest, parent)
      requires kind != StaticNode && forest.cells[parent].kind == StaticNode ==> EndsInSlash(forest.cells[parent].place.path)
      modifies this`forest, parent
      ensures InSync() && forall n | n in forest.cells :: n in old(forest.cells) || fresh(n)
      ensures Denotes(forest, routes)
      ensures r == Err(StaticIsNotSpecial) <==> kind == StaticNode
      ensures r == Err(SpecialUnderSpecial) <==> kind != StaticNode && old(forest).cells[parent].kind != StaticNode
      ensures r.Err? ==> forest == old(forest) && (r.error == StaticIsNotSpecial || r.error == SpecialUnderSpecial)
      ensures r.Ok? ==> SpecialInserted(old(forest), forest, parent, SpecialToken(kind), r.value)
    {
      assert parent.Matches(forest.cells[parent]);
      if kind == StaticNode {
        return Err(StaticIsNotSpecial);
      } else if parent.kind == ParameterNode || parent.kind == CatchAllNode {
        return Err(SpecialUnderSpecial);
      }

      if kind == ParameterNode {
        if parent.parameter == null {
          ghost var f := forest;
          var leaf := AttachSpecial(parent, ParameterNode);
          NewSpecialInserted(f, parent, Param, leaf, routes);
          return Ok(leaf);
        }
        OldSpecialInserted(forest, parent, Param, parent.parameter);
        return Ok(parent.parameter);
      }

      if kind == CatchAllNode {
        if parent.catchAll == null {
          ghost var f := forest;
          var leaf := AttachSpecial(parent, CatchAllNode);
          NewSpecialInserted(f, parent, CatchAll, leaf, routes);
          return Ok(leaf);
        }
        OldSpecialInserted(forest, parent, CatchAll, parent.catchAll);
        return Ok(parent.catchAll);
      }

      assert false;
    }

    method AttachSpecial(parent: Node, kind: NodeType) returns (leaf: Node)
      requires InSync() && parent in forest.cells && kind != StaticNode
      modifies this`forest, parent
      ensures InSync() && fresh(leaf)
      ensures leaf !in old(forest.cells) && forest == AddSpecial(old(forest), parent, SpecialToken(kind), leaf)
    {
      assert parent.Matches(forest.cells[parent]);
      leaf := new Node();
      leaf.kind := kind;
      if kind == ParameterNode {
        parent.parameter := leaf;
      } else {
        parent.catchAll := leaf;
      }
      forest := AddSpecial(forest, parent, SpecialToken(kind), leaf);
      forall x | x in forest.cells ensures x.Matches(forest.cells[x]) {
        if x != parent && x != leaf {
          assert old(x.Matches(forest.cells[x]));
        }
      }
    }

    ghost predicate Valid()
      reads this`roots, this`forest, this`routes, forest.cells.Keys
    {
      InSync() && Settled(forest, routes)
    }

    constructor ()
      ensures Valid() && routes == map[] && forest.cells == map[]
    {
      roots := map[];
      entered := [];
      forest := Forest(map[], map[]);
      routes := map[];
    }

    // The root of the verb's tree, made if there is none yet.
    method RootFor(verb: Verb) returns (root: Node)
      requires Valid()
      modifies this`roots, this`forest
      ensures InSync() && forall n | n in forest.cells :: n in old(forest.cells) || fresh(n)
      ensures Denotes(forest, routes)
      ensures Walked(old(forest), forest, root, Place(verb, []), if verb in old(roots) then 0 else 1, 0)
      ensures AtBoundary(forest.cells[root])
    {
      if verb !in roots {
        root := new Node();
        WalkFromNewRoot(forest, verb, root);
        AddRootDenotes(forest, verb, root, routes);
        roots := roots[verb := root];
        forest := AddRoot(forest, verb, root);
        forall x | x in forest.cells ensures x.Matches(forest.cells[x]) {
          if x != root {
            assert old(x.Matches(forest.cells[x]));
          }
        }
      } else {
        WalkFromOldRoot(forest, verb);
        root := roots[verb];
      }
    }

    // One turn of the walk: the literal text before a marker, then the marker's own node.
    method InsertMarked(from: Node, pattern: string, marker: nat, ghost f0: Forest, ghost pl: Place, ghost steps: nat, ghost size: nat)
      returns (current: Node, name: string, remaining: string, ghost chunk: Path)
      requires InSync() && Denotes(forest, routes)
      requires Walked(f0, forest, from, pl, steps, size) && AtBoundary(forest.cells[from])
      requires pattern != "" && pattern[0] == '/' && Faultless(pattern) && FindMarker(pattern, 0) == Some(marker)
      modifies this`forest, forest.cells.Keys
      ensures InSync() && forall n | n in forest.cells :: n in old(forest.cells) || fresh(n)
      ensures Denotes(forest, routes)
      ensures |chunk| == marker + 1 && Walked(f0, forest, current, pl.Then(chunk), steps + 2, size + marker)
      ensures remaining != "" ==> AtBoundary(forest.cells[current])
      ensures ScanTokens(pattern) == chunk + ScanTokens(remaining)
      ensures ScanNames(pattern) == [name] + ScanNames(remaining)
      ensures Rooted(remaining) && Faultless(remaining) && |remaining| < |pattern|
    {
      current, remaining := from, pattern;
      ghost var text, tail := pattern[..marker], pattern[marker..];
      ghost var stop := if tail[0] == '*' then |tail| else SegmentEnd(tail, 0);
      assert 1 <= stop;
      ScanTurn(pattern, marker, tail, stop, tail[1..stop], tail[stop..]);
      if marker != 0 {
        ghost var f := forest;
        WalkReady(f0, f, from, pl, steps, size, text);
        current := InsertStatic(current, remaining[..marker]);
        WalkStatic(f0, f, forest, from, pl, steps, size, text, current);
        remaining := remaining[marker..];
      }
      LitsEndInSlash(pl, text);

      var catchAll := remaining[0] == '*';
      var slash := if catchAll then Some(|remaining|) else Find(remaining, '/', 0);
      var end := if slash.None? then |remaining| else slash.value;

      name := remaining[1..end];

      ghost var g, at := forest, current;
      var kind := if catchAll then CatchAllNode else ParameterNode;
      ghost var t := SpecialToken(kind);
      var special := InsertSpecial(current, kind);
      current := special.value;
      WalkSpecial(f0, g, forest, at, pl.Then(Lits(text)), steps + 1, size + marker, t, current);
      chunk := Lits(text) + [t];
      ConcatAssoc(pl.path, Lits(text), [t]);
      ConcatAssoc(Lits(text), [t], ScanTokens(tail[stop..]));

      remaining := remaining[end..];
    }

    // The token loop: the node where the pattern ends, and the names met on the way.
    method Walk(root: Node, pattern: string, ghost verb: Verb, ghost f0: Forest, ghost k0: nat)
      returns (current: Node, names: seq<string>)
      requires InSync() && Denotes(forest, routes)
      requires Walked(f0, forest, root, Place(verb, []), k0, 0) && AtBoundary(forest.cells[root])
      requires Rooted(pattern) && Faultless(pattern)
      modifies this`forest, forest.cells.Keys
      ensures InSync() && forall n | n in forest.cells :: n in old(forest.cells) || fresh(n)
      ensures Denotes(forest, routes)
      ensures names == ScanNames(pattern) && |names| <= |ScanTokens(pattern)|
      ensures Walked(f0, forest, current, Place(verb, ScanTokens(pattern)), k0 + 2 * |names| + 1, |ScanTokens(pattern)| - |names|)
    {
      current, names := root, [];
      var remaining := pattern;
      ghost var done: Path := [];
      while remaining != ""
        invariant InSync() && Denotes(forest, routes)
        invariant forall n | n in forest.cells :: n in old(forest.cells) || fresh(n)
        invariant |names| <= |done|
        invariant Walked(f0, forest, current, Place(verb, done), k0 + 2 * |names|, |done| - |names|)
        invariant remaining != "" ==> AtBoundary(forest.cells[current])
        invariant ScanTokens(pattern) == done + ScanTokens(remaining)
        invariant ScanNames(pattern) == names + ScanNames(remaining)
        invariant Rooted(remaining) && Faultless(remaining)
        decreases |remaining|
      {
        ghost var pl, steps, size := Place(verb, done), k0 + 2 * |names|, |done| - |names|;
        var marker := FindMarker(remaining, 0);
        if marker.None? {
          ghost var f, from := forest, current;
          WalkReady(f0, f, from, pl, steps, size, remaining);
          current := InsertStatic(current, remaining);
          WalkStatic(f0, f, forest, from, pl, steps, size, remaining, current);
          return;
        }
        var name, rest;
        ghost var chunk;
        current, name, rest, chunk := InsertMarked(current, remaining, marker.value, f0, pl, steps, size);
        ConcatAssoc(done, chunk, ScanTokens(rest));
        ConcatAssoc(names, [name], ScanNames(rest));
        done := done + chunk;
        names := names + [name];
        remaining := rest;
      }
    }

    method StoreRoute(current: Node, route: Route, ghost f0: Forest, ghost verb: Verb, ghost pattern: string)
      requires InSync() && Denotes(forest, routes) && GoodRoutes(routes)
      requires WalkedAll(f0, forest, current, verb, pattern)
      requires ValidPattern(pattern) && route.names == ScanNames(pattern)
      modifies this`forest, this`routes, current
      ensures Valid() && forest.cells.Keys == old(forest.cells.Keys) && Grown(f0, forest, verb, pattern)
      ensures routes == old(routes)[Place(verb, ScanTokens(pattern)) := route]
    {
      ghost var f := forest;
      StoredGrown(f0, f, current, verb, pattern, route);
      StoredRoutes(f, current, verb, pattern, route, routes);
      assert current.Matches(f.cells[current]);
      current.route := Some(route);
      routes := routes[Place(verb, ScanTokens(pattern)) := route];
      forest := SetRoute(f, current, route);
      forall x | x in forest.cells ensures x.Matches(forest.cells[x]) {
        if x != current {
          assert old(x.Matches(f.cells[x]));
        }
      }
    }

    method InsertRoute(verb: Verb, pattern: string, handler: HandlerId) returns (r: Result<(), RouteError>)
      requires Valid() && ValidPattern(pattern)
      modifies this, forest.cells.Keys
      ensures Valid() && forall n | n in forest.cells :: n in old(forest.cells) || fresh(n)
      ensures Place(verb, ScanTokens(pattern)) in old(routes) ==>
                r == Err(DuplicateRoute) && forest == old(forest) && routes == old(routes)
      ensures Place(verb, ScanTokens(pattern)) !in old(routes) ==>
                && r == Ok(())
                && routes == old(routes)[Place(verb, ScanTokens(pattern)) := Route(handler, ScanNames(pattern))]
                && Grown(old(forest), forest, verb, pattern)
    {
      ghost var f0, rs := forest, routes;
      ValidIffFaultless(pattern);
      var root := RootFor(verb);
      var current, names := Walk(root, pattern, verb, f0, if verb in f0.roots then 0 else 1);
      assert WalkedAll(f0, forest, current, verb, pattern);
      RouteAtNode(forest, rs, current);
      assert current.Matches(forest.cells[current]);
      if current.route.Some? {
        return Err(DuplicateRoute);
      }
      StoreRoute(current, Route(handler, names), f0, verb, pattern);
      return Ok(());
    }

    method AddRoute(verb: Verb, pattern: string, handler: HandlerId) returns (r: Result<(), RouteError>)
      requires Valid()
      modifies this, forest.cells.Keys
      ensures Valid() && forall n | n in forest.cells :: n in old(forest.cells) || fresh(n)
      // an invalid pattern is turned away with the validator's verdict
      ensures pattern == "" || pattern[0] != '/' ==> r == Err(NotRooted)
      ensures !ValidPattern(pattern) && pattern != "" && pattern[0] == '/' ==> r.Err? && LeftmostFault(pattern, r.error) && VerdictFits(pattern, r.error)
      // a valid one exactly when its place is taken
      ensures ValidPattern(pattern) ==>
                r == if Place(verb, ScanTokens(pattern)) in old(routes) then Err(DuplicateRoute) else Ok(())
      // a rejected call leaves every tree as it was
      ensures r.Err? ==> forest == old(forest) && routes == old(routes)
      // an accepted one adds its route and nothing else
      ensures r.Ok? ==>
                && routes == old(routes)[Place(verb, ScanTokens(pattern)) := Route(handler, ScanNames(pattern))]
                && Grown(old(forest), forest, verb, pattern)
    {
      var checked := ValidatePattern(pattern);
      if checked.Err? {
        return checked;
      }
      r := InsertRoute(verb, pattern, handler);
    }

    // Depth-first search below `node`. Every call logs the node it enters. The ghost results are the tokens
    // from `node` to the node found, and how deep the calls nested.
    method Search(node: Node, target: string, position: nat, captures: CaptureStack)
      returns (found: Node?, ghost us: Path, ghost depth: nat)
      requires Valid() && node in forest.cells && position <= |target|
      modifies captures, this`entered
      ensures found == null ==>
                captures.values == old(captures.values) && NoneMatch(routes, forest.cells[node].place, target[position..])
      ensures found != null ==>
                && Found(forest, routes, forest.cells[node].place, target[position..], found, us)
                && captures.values == old(captures.values) + Captures(us, target[position..]).value
      ensures old(entered) + [node] <= entered && LogsOnce(old(entered), entered, Subtree(forest, node))
      ensures depth <= |target| - position + 1
      decreases |target| - position, 2
    {
      ghost var f, start := forest, entered;
      entered := entered + [node];
      ghost var mine := entered;
      assert node.Matches(f.cells[node]);
      SubtreeParts(f, node);
      assert LogsOnce(start, mine, {node});
      LogsWider(start, mine, {node}, Subtree(f, node));
      us, depth := [], 1;
      if position == |target| && node.route.Some? {
        FoundHere(f, routes, node);
        return node, us, depth;
      }

      ghost var remaining := target[position..];
      ghost var depthBelow;
      found, us, depthBelow := SearchStatics(node, target, position, captures);
      depth := 1 + depthBelow;
      ghost var middle := entered;
      LogsChain(start, mine, middle, {node}, AllBelowStatics(f, node), {node} + AllBelowStatics(f, node));
      LogsWider(start, middle, {node} + AllBelowStatics(f, node), Subtree(f, node));
      if found != null {
        return;
      }
      StaticsFail(f, routes, node, remaining);

      found, us, depthBelow := SearchParameter(node, target, position, captures);
      depth := if depth < 1 + depthBelow then 1 + depthBelow else depth;
      LogsChain(start, middle, entered, {node} + AllBelowStatics(f, node), UnderParam(f, node), Subtree(f, node));
      if found != null {
        return;
      }

      if node.catchAll != null {
        CatchAllHere(f, node);
        assert node.catchAll.Matches(f.cells[node.catchAll]);
      }
      if node.catchAll != null && node.catchAll.route.Some? && target[position..] != "" && target[position..] != "/" {
        CatchAllFound(f, routes, node, node.catchAll, remaining);
        captures.values := captures.values + [target[position..]];
        us := [CatchAll];
        return node.catchAll, us, depth;
      }
      NothingFound(f, routes, node, remaining);
      found := null;
    }

    // The static children, in the order they were attached.
    method SearchStatics(node: Node, target: string, position: nat, captures: CaptureStack)
      returns (found: Node?, ghost us: Path, ghost depth: nat)
      requires Valid() && node in forest.cells && position <= |target|
      modifies captures, this`entered
      ensures found == null ==>
                && captures.values == old(captures.values)
                && RefutedUpTo(forest, routes, node, |forest.cells[node].statics|, target[position..])
      ensures found != null ==>
                && Found(forest, routes, forest.cells[node].place, target[position..], found, us)
                && captures.values == old(captures.values) + Captures(us, target[position..]).value
      ensures LogsOnce(old(entered), entered, AllBelowStatics(forest, node))
      ensures depth <= |target| - position
      decreases |target| - position, 1
    {
      ghost var f, rs, cs, start := forest, routes, forest.cells[node].statics, entered;
      assert node.Matches(f.cells[node]);
      us, depth := [], 0;
      for i := 0 to |node.statics|
        invariant Valid() && forest == f && routes == rs && node.statics == cs
        invariant captures.values == old(captures.values) && RefutedUpTo(f, rs, node, i, target[position..])
        invariant LogsOnce(start, entered, BelowStatics(f, node, i)) && depth <= |target| - position
      {
        StaticHere(f, rs, node, cs[i], []);
        NextStaticApart(f, node, i);
        ghost var before, depthBelow := entered, 0;
        found, us, depthBelow := SearchStatic(node, node.statics[i], target, position, captures);
        LogsChain(start, before, entered, BelowStatics(f, node, i), Subtree(f, cs[i]), BelowStatics(f, node, i + 1));
        depth := if depth < depthBelow then depthBelow else depth;
        if found != null {
          StaticsGrow(f, node, i + 1);
          LogsWider(start, entered, BelowStatics(f, node, i + 1), AllBelowStatics(f, node));
          return;
        }
      }
      found := null;
    }

    // One static child: skipped unless the remaining text starts with its prefix.
    method SearchStatic(node: Node, child: Node, target: string, position: nat, captures: CaptureStack)
      returns (found: Node?, ghost us: Path, ghost depth: nat)
      requires Valid() && node in forest.cells && position <= |target|
      requires child in forest.cells[node].statics && child in forest.cells && forest.cells[child].prefix != ""
      modifies captures, this`entered
      ensures found == null ==>
                captures.values == old(captures.values) && Refuted(forest, routes, child, target[position..])
      ensures found != null ==>
                && Found(forest, routes, forest.cells[node].place, target[position..], found, us)
                && captures.values == old(captures.values) + Captures(us, target[position..]).value
      ensures LogsOnce(old(entered), entered, Subtree(forest, child))
      ensures depth <= |target| - position
      decreases |target| - position, 0
    {
      found, us, depth := null, [], 0;
      var remaining := target[position..];
      assert child.Matches(forest.cells[child]);
      var prefix := child.prefix;
      if !(prefix <= remaining) {
        return;
      }
      var saved := |captures.values|;
      assert target[position + |prefix|..] == remaining[|prefix|..];
      ghost var below;
      found, below, depth := Search(child, target, position + |prefix|, captures);
      if found != null {
        StaticFound(forest, routes, node, child, remaining, below);
        StaticHere(forest, routes, node, child, below);
        us := Lits(prefix) + below;
        return;
      }
      captures.values := captures.values[..saved];
    }

    // The parameter child, which takes the text up to the next '/' or the end.
    method SearchParameter(node: Node, target: string, position: nat, captures: CaptureStack)
      returns (found: Node?, ghost us: Path, ghost depth: nat)
      requires Valid() && node in forest.cells && position <= |target|
      requires NoneOfRank(routes, forest.cells[node].place, target[position..], 0)
      modifies captures, this`entered
      ensures found == null ==>
                captures.values == old(captures.values) && NoneOfRank(routes, forest.cells[node].place, target[position..], 1)
      ensures found != null ==>
                && Found(forest, routes, forest.cells[node].place, target[position..], found, us)
                && captures.values == old(captures.values) + Captures(us, target[position..]).value
      ensures LogsOnce(old(entered), entered, UnderParam(forest, node))
      ensures depth <= |target| - position
      decreases |target| - position, 1
    {
      assert node.Matches(forest.cells[node]);
      ghost var remaining := target[position..];
      found, us, depth := null, [], 0;
      var child := node.parameter;
      if child != null {
        ParamHere(forest, node, []);
      }
      if child != null && position < |target| && target[position] != '/' {
        var slash := Find(target, '/', position);
        var end := if slash.None? then |target| else slash.value;
        SegmentEndFrom(target, position);
        var saved := |captures.values|;
        captures.values := captures.values + [target[position..end]];
        ghost var below;
        found, below, depth := Search(child, target, end, captures);
        if found != null {
          ParamFound(forest, routes, node, child, remaining, below);
          ParamHere(forest, node, below);
          us := [Param] + below;
          return;
        }
        captures.values := captures.values[..saved];
      }
      ParamFails(forest, routes, node, remaining);
    }

    method Match(verb: Verb, target: string)
      returns (r: Option<MatchResult>, ghost winner: Option<Path>, ghost depth: nat)
      requires Valid()
      modifies this`entered
      ensures Valid()
      ensures IsAnswer(routes, verb, StripQuery(target), r)
      ensures Wins(routes, verb, StripQuery(target), winner) && r == Reply(routes, verb, StripQuery(target), winner)
      // the search enters nodes of the verb's own tree, none of them twice
      ensures LogsOnce(old(entered), entered, VerbNodes(forest, verb))
      ensures depth <= |StripQuery(target)| + 1
    {
      var path := StripQuery(target);
      if verb !in roots {
        NoRootNoMatch(forest, routes, verb, path);
        return None, None, 0;
      }
      RootSubtree(forest, verb);
      var captures := new CaptureStack();
      var found;
      ghost var us;
      found, us, depth := Search(roots[verb], path, 0, captures);
      assert path[0..] == path;
      if found == null {
        return None, None, depth;
      }
      assert found.Matches(forest.cells[found]);
      RouteAtNode(forest, routes, found);
      assert Here(routes, Place(verb, []), us);
      assert captures.values == [] + Captures(us, path).value == Captures(us, path).value;
      r := Some(MatchResult(found.route.value, captures.values));
      winner := Some(us);
    }
  }
}
