/** The simple thing the tree speeds up: a list of registrations, scanned for the best match. */
module Reference {
  import opened HttpTypes
  import opened Text
  import opened Tokens
  import opened Patterns
  import opened RadixTree
  import opened InsertionSteps
  import opened Lookup

  datatype Registration = Registration(verb: Verb, pattern: string, handler: HandlerId)

  function Spot(reg: Registration): Place { Place(reg.verb, ScanTokens(reg.pattern)) }

  function RouteOf(reg: Registration): Route { Route(reg.handler, ScanNames(reg.pattern)) }

  ghost predicate Accepted(routes: map<Place, Route>, reg: Registration)
  {
    ValidPattern(reg.pattern) && Spot(reg) !in routes
  }

  ghost function Register(routes: map<Place, Route>, reg: Registration): map<Place, Route>
  {
    if Accepted(routes, reg) then routes[Spot(reg) := RouteOf(reg)] else routes
  }

  // The routes after a run of registrations, the rejected ones included.
  ghost function RegisterAll(regs: seq<Registration>): map<Place, Route>
  {
    if regs == [] then map[] else Register(RegisterAll(regs[..|regs| - 1]), regs[|regs| - 1])
  }

  // A linear scan: the earliest registration that no matching one comes before.
  ghost function LinearMatch(regs: seq<Registration>, verb: Verb, path: string): Option<Registration>
  {
    if regs == [] then None
    else
      var best := LinearMatch(regs[..|regs| - 1], verb, path);
      var last := regs[|regs| - 1];
      if last.verb == verb && ValidPattern(last.pattern) && Captures(ScanTokens(last.pattern), path).Some?
         && (best.None? || Before(ScanTokens(last.pattern), ScanTokens(best.value.pattern)))
      then Some(last) else best
  }

  function LinearReply(found: Option<Registration>, path: string): Option<MatchResult>
  {
    match found
    case None => None
    case Some(reg) =>
      match Captures(ScanTokens(reg.pattern), path)
      case None => None
      case Some(values) => Some(MatchResult(RouteOf(reg), values))
  }

  function WinnerOf(found: Option<Registration>): Option<Path>
  {
    match found
    case None => None
    case Some(reg) => Some(ScanTokens(reg.pattern))
  }

  // ----- the winner is unique, and one more route changes it in one way only -----

  lemma AtRoot(verb: Verb, us: Path)
    ensures Place(verb, []).Then(us) == Place(verb, us)
  {
    assert [] + us == us;
  }

  lemma WinnerUnique(routes: map<Place, Route>, verb: Verb, path: string, a: Option<Path>, b: Option<Path>)
    requires Wins(routes, verb, path, a) && Wins(routes, verb, path, b)
    ensures a == b
  {
    assert a.Some? ==> Here(routes, Place(verb, []), a.value);
    assert b.Some? ==> Here(routes, Place(verb, []), b.value);
    if a.Some? && b.Some? && a != b {
      BeforeAsymmetric(a.value, b.value);
    }
  }

  // The winner once a route is added at `pl`.
  predicate TakesOver(pl: Place, verb: Verb, path: string, prev: Option<Path>)
  {
    pl.verb == verb && Captures(pl.path, path).Some? && (prev.None? || Before(pl.path, prev.value))
  }

  /** After one more route the winner is the new pattern if it matches and outranks the old winner, else the old winner. */
  lemma FrameLaw(routes: map<Place, Route>, pl: Place, route: Route, verb: Verb, path: string, prev: Option<Path>)
    requires pl !in routes && Wins(routes, verb, path, prev)
    ensures Wins(routes[pl := route], verb, path, if TakesOver(pl, verb, path, prev) then Some(pl.path) else prev)
  {
    var all, root := routes[pl := route], Place(verb, []);
    AtRoot(verb, pl.path);
    forall us | Here(all, root, us) && !Here(routes, root, us) ensures pl.verb == verb && us == pl.path {
      AtRoot(verb, us);
    }
    if TakesOver(pl, verb, path, prev) {
      assert Here(all, root, pl.path);
      forall us | Here(all, root, us) && Captures(us, path).Some? && us != pl.path ensures Before(pl.path, us) {
        assert Here(routes, root, us);
        if us != prev.value {
          BeforeTransitive(pl.path, prev.value, us);
        }
      }
    } else if prev.Some? {
      var w := prev.value;
      assert Here(routes, root, w) && Here(all, root, w);
      forall us | Here(all, root, us) && Captures(us, path).Some? && us != w ensures Before(w, us) {
        if !Here(routes, root, us) {
          BeforeTotalOnMatches(w, us, path);
        }
      }
    } else {
      forall us | Here(all, root, us) ensures Captures(us, path).None? {
        assert !Here(routes, root, us) ==> us == pl.path;
      }
    }
  }

  /** A duplicate would not have won: the winner already is, or comes before, the pattern in its place. */
  lemma DuplicateLoses(routes: map<Place, Route>, pl: Place, verb: Verb, path: string, prev: Option<Path>)
    requires pl in routes && Wins(routes, verb, path, prev)
    ensures !TakesOver(pl, verb, path, prev)
  {
    if TakesOver(pl, verb, path, prev) {
      AtRoot(verb, pl.path);
      assert Here(routes, Place(verb, []), pl.path);
      BeforeAsymmetric(pl.path, prev.value);
    }
  }

  ghost predicate StandsFor(routes: map<Place, Route>, verb: Verb, path: string, found: Option<Registration>)
  {
    found.Some? ==>
      && found.value.verb == verb && Spot(found.value) in routes && routes[Spot(found.value)] == RouteOf(found.value)
      && Captures(ScanTokens(found.value.pattern), path).Some?
  }

  lemma ReplyOf(routes: map<Place, Route>, verb: Verb, path: string, found: Option<Registration>)
    requires StandsFor(routes, verb, path, found) && Wins(routes, verb, path, WinnerOf(found))
    ensures Reply(routes, verb, path, WinnerOf(found)) == LinearReply(found, path)
  {
    if found.Some? {
      AtRoot(verb, ScanTokens(found.value.pattern));
    }
  }

  lemma {:induction false} LinearMatchStands(regs: seq<Registration>, verb: Verb, path: string)
    ensures StandsFor(RegisterAll(regs), verb, path, LinearMatch(regs, verb, path))
    ensures Wins(RegisterAll(regs), verb, path, WinnerOf(LinearMatch(regs, verb, path)))
  {
    if regs != [] {
      var init, last := regs[..|regs| - 1], regs[|regs| - 1];
      var routes, best := RegisterAll(init), LinearMatch(init, verb, path);
      LinearMatchStands(init, verb, path);
      if Accepted(routes, last) {
        FrameLaw(routes, Spot(last), RouteOf(last), verb, path, WinnerOf(best));
      } else if ValidPattern(last.pattern) {
        DuplicateLoses(routes, Spot(last), verb, path, WinnerOf(best));
      }
    }
  }

  /** The linear scan over a run finds the winner among the routes that the run leaves registered. */
  lemma LinearMatchWins(regs: seq<Registration>, verb: Verb, path: string, w: Option<Path>)
    requires Wins(RegisterAll(regs), verb, path, w)
    ensures Reply(RegisterAll(regs), verb, path, w) == LinearReply(LinearMatch(regs, verb, path), path)
  {
    LinearMatchStands(regs, verb, path);
    WinnerUnique(RegisterAll(regs), verb, path, w, WinnerOf(LinearMatch(regs, verb, path)));
    ReplyOf(RegisterAll(regs), verb, path, LinearMatch(regs, verb, path));
  }

  /** One more registration changes the winner only by winning itself: a matched target stays matched, and a
      rejected registration or one for another verb changes no reply. */
  lemma OneMoreRegistration(regs: seq<Registration>, reg: Registration, verb: Verb, path: string, w: Option<Path>, v: Option<Path>)
    requires Wins(RegisterAll(regs), verb, path, w) && Wins(RegisterAll(regs + [reg]), verb, path, v)
    ensures v == if Accepted(RegisterAll(regs), reg) && TakesOver(Spot(reg), verb, path, w) then Some(ScanTokens(reg.pattern)) else w
    ensures w.Some? ==> v.Some?
    ensures v == w ==> Reply(RegisterAll(regs), verb, path, w) == Reply(RegisterAll(regs + [reg]), verb, path, v)
  {
    var routes, all := RegisterAll(regs), RegisterAll(regs + [reg]);
    assert (regs + [reg])[..|regs|] == regs;
    assert all == Register(routes, reg);
    if Accepted(routes, reg) {
      FrameLaw(routes, Spot(reg), RouteOf(reg), verb, path, w);
    }
    WinnerUnique(all, verb, path, v, if Accepted(routes, reg) && TakesOver(Spot(reg), verb, path, w) then Some(ScanTokens(reg.pattern)) else w);
    if w.Some? {
      assert Here(routes, Place(verb, []), w.value);
    }
  }

  // ----- runs in plain terms -----

  // Registration j is accepted: valid, and the first valid one of the run for its verb and tokens.
  ghost predicate FirstOfItsKind(regs: seq<Registration>, j: nat)
  {
    && j < |regs| && ValidPattern(regs[j].pattern)
    && forall i | 0 <= i < j && ValidPattern(regs[i].pattern) && regs[i].verb == regs[j].verb ::
         ScanTokens(regs[i].pattern) != ScanTokens(regs[j].pattern)
  }

  // The routes are those of the accepted registrations: each with its own handler and names, and no others.
  ghost predicate HoldsRun(regs: seq<Registration>, routes: map<Place, Route>)
  {
    && (forall j: nat | FirstOfItsKind(regs, j) ::
          var pl := Place(regs[j].verb, ScanTokens(regs[j].pattern));
          pl in routes && routes[pl] == Route(regs[j].handler, ScanNames(regs[j].pattern)))
    && (forall pl | pl in routes ::
          exists j: nat :: FirstOfItsKind(regs, j) && pl == Place(regs[j].verb, ScanTokens(regs[j].pattern)))
  }

  lemma KindOfPrefix(regs: seq<Registration>, n: nat, j: nat)
    requires j < n <= |regs|
    ensures FirstOfItsKind(regs[..n], j) <==> FirstOfItsKind(regs, j)
  {
    assert forall i | 0 <= i < n :: regs[..n][i] == regs[i];
  }

  lemma {:induction false} RegisteredIff(regs: seq<Registration>, pl: Place)
    ensures pl in RegisterAll(regs) <==>
            exists i :: 0 <= i < |regs| && ValidPattern(regs[i].pattern) && pl == Place(regs[i].verb, ScanTokens(regs[i].pattern))
  {
    if regs != [] {
      var n := |regs| - 1;
      var init := regs[..n];
      RegisteredIff(init, pl);
      assert forall i | 0 <= i < n :: init[i] == regs[i];
      if pl in RegisterAll(init) {
        var i :| 0 <= i < n && ValidPattern(init[i].pattern) && pl == Place(init[i].verb, ScanTokens(init[i].pattern));
        assert ValidPattern(regs[i].pattern);
      }
    }
  }

  lemma AcceptedIffFirst(regs: seq<Registration>, j: nat)
    requires j < |regs|
    ensures Accepted(RegisterAll(regs[..j]), regs[j]) <==> FirstOfItsKind(regs, j)
  {
    RegisteredIff(regs[..j], Spot(regs[j]));
    assert forall i | 0 <= i < j :: regs[..j][i] == regs[i];
    if !FirstOfItsKind(regs, j) && ValidPattern(regs[j].pattern) {
      var i :| 0 <= i < j && ValidPattern(regs[i].pattern) && regs[i].verb == regs[j].verb
               && ScanTokens(regs[i].pattern) == ScanTokens(regs[j].pattern);
      assert ValidPattern(regs[..j][i].pattern);
    }
  }

  lemma {:induction false} RunKeeps(regs: seq<Registration>, j: nat)
    requires FirstOfItsKind(regs, j)
    ensures var pl := Place(regs[j].verb, ScanTokens(regs[j].pattern));
            pl in RegisterAll(regs) && RegisterAll(regs)[pl] == Route(regs[j].handler, ScanNames(regs[j].pattern))
  {
    var n := |regs| - 1;
    AcceptedIffFirst(regs, n);
    if j < n {
      KindOfPrefix(regs, n, j);
      assert regs[..n][j] == regs[j];
      RunKeeps(regs[..n], j);
    }
  }

  lemma {:induction false} RunOnly(regs: seq<Registration>, pl: Place) returns (j: nat)
    requires pl in RegisterAll(regs)
    ensures FirstOfItsKind(regs, j) && pl == Place(regs[j].verb, ScanTokens(regs[j].pattern))
  {
    var n := |regs| - 1;
    AcceptedIffFirst(regs, n);
    if pl in RegisterAll(regs[..n]) {
      j := RunOnly(regs[..n], pl);
      KindOfPrefix(regs, n, j);
      assert regs[..n][j] == regs[j];
    } else {
      j := n;
    }
  }

  /** A run leaves the routes of its accepted registrations. */
  lemma RunHolds(regs: seq<Registration>)
    ensures HoldsRun(regs, RegisterAll(regs))
  {
    var routes := RegisterAll(regs);
    forall j: nat | FirstOfItsKind(regs, j)
      ensures var pl := Place(regs[j].verb, ScanTokens(regs[j].pattern));
              pl in routes && routes[pl] == Route(regs[j].handler, ScanNames(regs[j].pattern))
    {
      RunKeeps(regs, j);
    }
    forall pl | pl in routes
      ensures exists j: nat :: FirstOfItsKind(regs, j) && pl == Place(regs[j].verb, ScanTokens(regs[j].pattern))
    {
      var j := RunOnly(regs, pl);
    }
  }

  // Registration i matches the path for this verb.
  ghost predicate Matches(regs: seq<Registration>, i: nat, verb: Verb, path: string)
  {
    && i < |regs| && regs[i].verb == verb && ValidPattern(regs[i].pattern)
    && Captures(ScanTokens(regs[i].pattern), path).Some?
  }

  // The reply of a run: the handler, names and captures of the accepted matching registration that comes
  // before all other matching patterns, and none if no valid registration of the verb matches.
  ghost predicate AnswersRun(regs: seq<Registration>, verb: Verb, path: string, r: Option<MatchResult>)
  {
    match r
    case None => forall i: nat :: !Matches(regs, i, verb, path)
    case Some(found) =>
      exists i: nat :: && Matches(regs, i, verb, path) && FirstOfItsKind(regs, i)
                  && found.route == Route(regs[i].handler, ScanNames(regs[i].pattern))
                  && Captures(ScanTokens(regs[i].pattern), path) == Some(found.values)
                  && forall j: nat | Matches(regs, j, verb, path) ::
                       || ScanTokens(regs[j].pattern) == ScanTokens(regs[i].pattern)
                       || Before(ScanTokens(regs[i].pattern), ScanTokens(regs[j].pattern))
  }

  // The winning tokens belong to an accepted registration, and what it stored is the reply.
  lemma WinnerRegistered(regs: seq<Registration>, verb: Verb, path: string, us: Path) returns (i: nat)
    requires Wins(RegisterAll(regs), verb, path, Some(us))
    ensures FirstOfItsKind(regs, i) && Matches(regs, i, verb, path) && ScanTokens(regs[i].pattern) == us
    ensures Place(verb, us) in RegisterAll(regs)
    ensures RegisterAll(regs)[Place(verb, us)] == Route(regs[i].handler, ScanNames(regs[i].pattern))
  {
    AtRoot(verb, us);
    assert Here(RegisterAll(regs), Place(verb, []), us);
    i := RunOnly(regs, Place(verb, us));
    RunKeeps(regs, i);
  }

  lemma MatchingIsHere(regs: seq<Registration>, j: nat, verb: Verb, path: string)
    requires Matches(regs, j, verb, path)
    ensures Here(RegisterAll(regs), Place(verb, []), ScanTokens(regs[j].pattern))
  {
    RegisteredIff(regs, Place(verb, ScanTokens(regs[j].pattern)));
    AtRoot(verb, ScanTokens(regs[j].pattern));
  }

  /** Any winner among the routes of a run gives the run's reply. */
  lemma WinnerAnswersRun(regs: seq<Registration>, verb: Verb, path: string, w: Option<Path>)
    requires Wins(RegisterAll(regs), verb, path, w)
    ensures AnswersRun(regs, verb, path, Reply(RegisterAll(regs), verb, path, w))
  {
    forall j: nat | Matches(regs, j, verb, path) ensures Here(RegisterAll(regs), Place(verb, []), ScanTokens(regs[j].pattern)) {
      MatchingIsHere(regs, j, verb, path);
    }
    if w.Some? {
      var i := WinnerRegistered(regs, verb, path, w.value);
      AtRoot(verb, w.value);
    }
  }

  // ----- the order of registration does not matter -----

  // No two different registrations of the run compete for one place.
  ghost predicate NoConflicts(regs: seq<Registration>)
  {
    forall a, b | a in regs && b in regs && Spot(a) == Spot(b) :: a == b
  }

  ghost predicate Contents(regs: seq<Registration>, routes: map<Place, Route>)
  {
    && (forall reg {:trigger Spot(reg)} | reg in regs && ValidPattern(reg.pattern) :: Spot(reg) in routes && routes[Spot(reg)] == RouteOf(reg))
    && (forall pl {:trigger pl in routes} | pl in routes :: exists reg {:trigger Spot(reg)} :: reg in regs && ValidPattern(reg.pattern) && Spot(reg) == pl)
  }

  lemma {:induction false} RegisterAllContents(regs: seq<Registration>)
    requires NoConflicts(regs)
    ensures Contents(regs, RegisterAll(regs))
  {
    if regs != [] {
      var init, last := regs[..|regs| - 1], regs[|regs| - 1];
      assert forall reg | reg in init :: reg in regs;
      RegisterAllContents(init);
      var routes, all := RegisterAll(init), RegisterAll(regs);
      assert last in regs;
      assert Spot(last) in routes ==> last in init by {
        if Spot(last) in routes {
          var other :| other in init && ValidPattern(other.pattern) && Spot(other) == Spot(last);
          assert other == last;
        }
      }
      forall reg | reg in regs && ValidPattern(reg.pattern) ensures Spot(reg) in all && all[Spot(reg)] == RouteOf(reg) {
        if reg in init {
          assert Spot(reg) in routes;
        } else {
          assert reg == last;
        }
      }
      forall pl | pl in all ensures exists reg :: reg in regs && ValidPattern(reg.pattern) && Spot(reg) == pl {
        if pl in routes {
          var reg :| reg in init && ValidPattern(reg.pattern) && Spot(reg) == pl;
          assert reg in regs;
        } else {
          assert last in regs && Spot(last) == pl;
        }
      }
    }
  }

  lemma SameAt(regs: seq<Registration>, x: map<Place, Route>, y: map<Place, Route>, pl: Place)
    requires Contents(regs, x) && Contents(regs, y) && pl in x
    ensures pl in y && x[pl] == y[pl]
  {
    var reg :| reg in regs && ValidPattern(reg.pattern) && Spot(reg) == pl;
  }

  lemma SameContents(regs: seq<Registration>, x: map<Place, Route>, y: map<Place, Route>)
    requires Contents(regs, x) && Contents(regs, y)
    ensures x == y
  {
    assert forall pl | pl in x :: pl in y && x[pl] == y[pl] by {
      forall pl | pl in x ensures pl in y && x[pl] == y[pl] {
        SameAt(regs, x, y, pl);
      }
    }
    assert forall pl | pl in y :: pl in x by {
      forall pl | pl in y ensures pl in x {
        SameAt(regs, y, x, pl);
      }
    }
  }

  lemma SameMembers(a: seq<Registration>, b: seq<Registration>)
    requires multiset(a) == multiset(b)
    ensures forall reg :: reg in a <==> reg in b
  {
    assert forall reg :: reg in a <==> reg in multiset(a);
    assert forall reg :: reg in b <==> reg in multiset(b);
  }

  lemma OrderIrrelevantForRoutes(a: seq<Registration>, b: seq<Registration>)
    requires NoConflicts(a) && multiset(a) == multiset(b)
    ensures RegisterAll(a) == RegisterAll(b)
  {
    SameMembers(a, b);
    RegisterAllContents(a);
    RegisterAllContents(b);
    assert Contents(a, RegisterAll(b)) by {
      var routes := RegisterAll(b);
      forall pl | pl in routes ensures exists reg :: reg in a && ValidPattern(reg.pattern) && Spot(reg) == pl {
        var reg :| reg in b && ValidPattern(reg.pattern) && Spot(reg) == pl;
        assert reg in a;
      }
    }
    SameContents(a, RegisterAll(a), RegisterAll(b));
  }

  /** Runs over the same registrations, in any order, leave the same routes and so give the same replies. */
  lemma OrderIrrelevant(a: seq<Registration>, b: seq<Registration>, verb: Verb, path: string)
    requires NoConflicts(a) && multiset(a) == multiset(b)
    ensures RegisterAll(a) == RegisterAll(b)
    ensures LinearReply(LinearMatch(a, verb, path), path) == LinearReply(LinearMatch(b, verb, path), path)
  {
    var w := WinnerOf(LinearMatch(a, verb, path));
    OrderIrrelevantForRoutes(a, b);
    LinearMatchStands(a, verb, path);
    LinearMatchWins(a, verb, path, w);
    LinearMatchWins(b, verb, path, w);
  }

  // ----- captures and targets -----

  /** A reply's values, put back into the winning pattern, spell the path; there is one for each name. */
  lemma ReplyRebuildsPath(routes: map<Place, Route>, verb: Verb, path: string, w: Option<Path>)
    requires GoodRoutes(routes) && Wins(routes, verb, path, w) && w.Some?
    ensures var found := Reply(routes, verb, path, w).value;
            && |found.values| == |found.route.names|
            && ValuesFit(w.value, found.values) && Fill(w.value, found.values) == path
  {
    assert Here(routes, Place(verb, []), w.value);
    AtRoot(verb, w.value);
    CapturesFill(w.value, path);
  }

  predicate QuestionFree(ts: Path) { Lit('?') !in ts }

  lemma {:induction false} FillQuestionFree(ts: Path, vs: seq<string>)
    requires |vs| == Specials(ts) && QuestionFree(ts) && forall i | 0 <= i < |vs| :: '?' !in vs[i]
    ensures '?' !in Fill(ts, vs)
  {
    if ts != [] {
      assert ts[0] in ts && forall t | t in ts[1..] :: t in ts;
      if ts[0].Lit? {
        FillQuestionFree(ts[1..], vs);
      } else {
        FillQuestionFree(ts[1..], vs[1..]);
        assert '?' !in vs[0];
      }
    }
  }

  /** Filling a registered pattern with fitting values gives a target, with or without a query, that is matched by
      that pattern with those values, unless a pattern that comes before it matches too. */
  lemma InstantiateThenMatch(routes: map<Place, Route>, verb: Verb, ts: Path, vs: seq<string>, query: string, w: Option<Path>)
    requires GoodRoutes(routes) && Place(verb, ts) in routes && QuestionFree(ts)
    requires ValuesFit(ts, vs) && forall i | 0 <= i < |vs| :: '?' !in vs[i]
    requires Wins(routes, verb, Fill(ts, vs), w)
    ensures StripQuery(Fill(ts, vs)) == StripQuery(Fill(ts, vs) + "?" + query) == Fill(ts, vs)
    ensures w.Some? && (w.value == ts || Before(w.value, ts))
    ensures w.value == ts ==> Reply(routes, verb, Fill(ts, vs), w) == Some(MatchResult(routes[Place(verb, ts)], vs))
  {
    var path := Fill(ts, vs);
    FillQuestionFree(ts, vs);
    StripQueryInverts(path, query);
    assert Bounded(ts) by {
      assert routes[Place(verb, ts)] == routes[Place(verb, ts)];
    }
    FillMatches(ts, vs);
    AtRoot(verb, ts);
    assert Here(routes, Place(verb, []), ts);
  }

  // ----- literals with a question mark -----

  lemma {:induction false} MatchedLiterals(ts: Path, path: string)
    requires Captures(ts, path).Some? && '?' !in path
    ensures QuestionFree(ts)
  {
    if ts != [] {
      match ts[0]
      case Lit(c) =>
        assert path[0] in path;
        MatchedLiterals(ts[1..], path[1..]);
      case Param =>
        MatchedLiterals(ts[1..], path[SegmentEnd(path, 0)..]);
      case CatchAll =>
        assert ts == [CatchAll];
      assert ts == [ts[0]] + ts[1..];
    }
  }

  function Samples(n: nat): (vs: seq<string>)
    ensures |vs| == n && forall i | 0 <= i < n :: vs[i] == "x"
  {
    seq(n, _ => "x")
  }

  lemma {:induction false} SamplesFit(ts: Path)
    ensures ValuesFit(ts, Samples(Specials(ts)))
  {
    if ts != [] {
      SamplesFit(ts[1..]);
      assert !ts[0].Lit? ==> Samples(Specials(ts))[1..] == Samples(Specials(ts[1..]));
    }
  }

  /** The validator lets a '?' into a literal, but lookups cut the target there: a valid pattern can be matched
      by some target exactly when its literals have no '?'. */
  lemma ReachableIffQuestionFree(pattern: string)
    requires ValidPattern(pattern)
    ensures (exists target :: Captures(ScanTokens(pattern), StripQuery(target)).Some?) <==> QuestionFree(ScanTokens(pattern))
  {
    var ts := ScanTokens(pattern);
    if target :| Captures(ts, StripQuery(target)).Some? {
      MatchedLiterals(ts, StripQuery(target));
    }
    if QuestionFree(ts) {
      var vs := Samples(Specials(ts));
      SamplesFit(ts);
      ScanIsFaithful(pattern);
      FillMatches(ts, vs);
      FillQuestionFree(ts, vs);
      StripQueryInverts(Fill(ts, vs), "");
      assert Captures(ts, StripQuery(Fill(ts, vs))).Some?;
    }
  }

  lemma QuestionPatternIsUnreachable(target: string)
    ensures ValidPattern("/a?") && Captures(ScanTokens("/a?"), StripQuery(target)).None?
  {
    var p := "/a?";
    assert FaultlessUpTo(p, 3);
    ValidIffFaultless(p);
    assert ScanTokens(p)[2] == Lit('?');
    assert !QuestionFree(ScanTokens(p));
    ReachableIffQuestionFree(p);
  }
}
