/** Whole runs: any sequence of registrations, then any lookup. */
module Runs {
  import opened HttpTypes
  import opened Text
  import opened Tokens
  import opened Patterns
  import opened RadixTree
  import opened TreeEdits
  import opened InsertionSteps
  import opened Lookup
  import opened Reference
  import opened Routing

  // Room for a run's accepted patterns: with k markers, 2k + 2 nodes and perhaps a root, and the literal text.
  ghost function NodeBudget(regs: seq<Registration>): nat
  {
    if regs == [] then 0
    else
      var init, last := regs[..|regs| - 1], regs[|regs| - 1];
      NodeBudget(init) + (if Accepted(RegisterAll(init), last) then 2 * |ScanNames(last.pattern)| + 3 else 0)
  }

  ghost function TextBudget(regs: seq<Registration>): int
  {
    if regs == [] then 0
    else
      var init, last := regs[..|regs| - 1], regs[|regs| - 1];
      TextBudget(init) + (if Accepted(RegisterAll(init), last) then |ScanTokens(last.pattern)| - |ScanNames(last.pattern)| else 0)
  }

  ghost predicate WithinBudget(regs: seq<Registration>, f: Forest)
  {
    |f.cells| <= NodeBudget(regs) && TextSize(f.cells) <= TextBudget(regs)
  }

  lemma BudgetStep(regs: seq<Registration>, i: nat, f: Forest, g: Forest)
    requires i < |regs| && WithinBudget(regs[..i], f)
    requires if Accepted(RegisterAll(regs[..i]), regs[i]) then Grown(f, g, regs[i].verb, regs[i].pattern) else g == f
    ensures WithinBudget(regs[..i + 1], g)
    ensures RegisterAll(regs[..i + 1]) == Register(RegisterAll(regs[..i]), regs[i])
  {
    assert regs[..i + 1][..i] == regs[..i];
  }

  // Which registrations of the first i a run accepts.
  ghost predicate VerdictsOf(regs: seq<Registration>, i: nat, verdicts: seq<Result<(), RouteError>>)
  {
    i <= |regs| && |verdicts| == i && forall j | 0 <= j < i :: verdicts[j].Ok? <==> Accepted(RegisterAll(regs[..j]), regs[j])
  }

  lemma VerdictStep(regs: seq<Registration>, i: nat, verdicts: seq<Result<(), RouteError>>, verdict: Result<(), RouteError>)
    requires i < |regs| && VerdictsOf(regs, i, verdicts)
    requires verdict.Ok? <==> Accepted(RegisterAll(regs[..i]), regs[i])
    ensures VerdictsOf(regs, i + 1, verdicts + [verdict])
  {
  }

  method Replay(regs: seq<Registration>) returns (router: Router, verdicts: seq<Result<(), RouteError>>)
    ensures fresh(router) && fresh(router.forest.cells.Keys) && router.Valid()
    ensures router.routes == RegisterAll(regs) && HoldsRun(regs, router.routes)
    ensures |verdicts| == |regs| && forall j | 0 <= j < |regs| :: verdicts[j].Ok? <==> FirstOfItsKind(regs, j)
    ensures WithinBudget(regs, router.forest)
  {
    router := new Router();
    verdicts := [];
    for i := 0 to |regs|
      invariant fresh(router) && fresh(router.forest.cells.Keys) && router.Valid()
      invariant router.routes == RegisterAll(regs[..i]) && VerdictsOf(regs, i, verdicts)
      invariant WithinBudget(regs[..i], router.forest)
    {
      ghost var f := router.forest;
      var verdict := router.AddRoute(regs[i].verb, regs[i].pattern, regs[i].handler);
      BudgetStep(regs, i, f, router.forest);
      VerdictStep(regs, i, verdicts, verdict);
      verdicts := verdicts + [verdict];
    }
    assert regs[..|regs|] == regs;
    RunHolds(regs);
    forall j | 0 <= j < |regs| ensures verdicts[j].Ok? <==> FirstOfItsKind(regs, j) {
      AcceptedIffFirst(regs, j);
    }
  }

  /** The router agrees with the linear scan after every run, on every verb and target. */
  method LookupAfter(regs: seq<Registration>, verb: Verb, target: string) returns (r: Option<MatchResult>)
    ensures var path := StripQuery(target);
            AnswersRun(regs, verb, path, r) && r == LinearReply(LinearMatch(regs, verb, path), path)
  {
    var router, verdicts := Replay(regs);
    ghost var winner, depth;
    r, winner, depth := router.Match(verb, target);
    LinearMatchWins(regs, verb, StripQuery(target), winner);
    WinnerAnswersRun(regs, verb, StripQuery(target), winner);
  }
}
