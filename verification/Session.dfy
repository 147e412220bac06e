/** The server's mutable route table and the session's choice of a handler for a path. */
module Session {
  import opened HttpTypes

  datatype Entry = Entry(path: string, handler: HandlerId)

  // `k` is the longest non-empty key that starts `path`; none if no such key does.
  ghost predicate LongestPrefix(keys: set<string>, path: string, k: Option<string>)
  {
    match k
    case None => forall p | p in keys && p <= path :: p == ""
    case Some(best) =>
      && best in keys && best != "" && best <= path
      && forall p | p in keys && p <= path && p != best :: |p| < |best|
  }

  /** There is only one longest prefix, so the order in which the table is walked cannot matter. */
  lemma LongestPrefixUnique(keys: set<string>, path: string, a: Option<string>, b: Option<string>)
    requires LongestPrefix(keys, path, a) && LongestPrefix(keys, path, b)
    ensures a == b
  {
  }

  lemma OneMoreKey(keys: set<string>, path: string, k: Option<string>, p: string)
    requires LongestPrefix(keys, path, k)
    ensures LongestPrefix(keys + {p}, path, if p <= path && |p| > (if k.None? then 0 else |k.value|) then Some(p) else k)
  {
    if k.Some? && p <= path && |p| == |k.value| {
      assert p == path[..|p|] == k.value;
    }
  }

  // The table after a run of registrations: a later one for the same path replaces the earlier.
  function TableOf(log: seq<Entry>): map<string, HandlerId>
  {
    if log == [] then map[] else TableOf(log[..|log| - 1])[log[|log| - 1].path := log[|log| - 1].handler]
  }

  // Entry i is the last one registered for its path.
  ghost predicate LastFor(log: seq<Entry>, i: nat)
  {
    i < |log| && forall j | i < j < |log| :: log[j].path != log[i].path
  }

  lemma {:induction false} TableHoldsLast(log: seq<Entry>, i: nat)
    requires LastFor(log, i)
    ensures log[i].path in TableOf(log) && TableOf(log)[log[i].path] == log[i].handler
  {
    var n := |log| - 1;
    if i < n {
      assert log[n].path != log[i].path;
      TableHoldsLast(log[..n], i);
    }
  }

  lemma {:induction false} TableHasLast(log: seq<Entry>, path: string) returns (i: nat)
    requires path in TableOf(log)
    ensures LastFor(log, i) && log[i].path == path
  {
    var n := |log| - 1;
    if log[n].path == path {
      i := n;
    } else {
      i := TableHasLast(log[..n], path);
      assert log[..n][i] == log[i];
    }
  }

  // The choice over a run: the last registration of the longest non-empty registered prefix.
  ghost predicate Chosen(log: seq<Entry>, path: string, r: Option<HandlerId>)
  {
    match r
    case None => forall j | 0 <= j < |log| && log[j].path <= path :: log[j].path == ""
    case Some(h) =>
      exists i: nat :: && LastFor(log, i) && log[i].handler == h && log[i].path != "" && log[i].path <= path
                  && forall j | 0 <= j < |log| && log[j].path <= path && log[j].path != log[i].path :: |log[j].path| < |log[i].path|
  }

  class RouteTable {
    var routes: map<string, HandlerId>

    constructor ()
      ensures routes == map[]
    {
      routes := map[];
    }

    method Route(path: string, handler: HandlerId)
      modifies this
      ensures routes == old(routes)[path := handler]
    {
      routes := routes[path := handler];
    }

    // The selection loop, over the table's keys in whatever order they come.
    method Select(path: string) returns (matched: Option<string>)
      ensures LongestPrefix(routes.Keys, path, matched)
    {
      matched := None;
      var maxLen := 0;
      var todo := routes.Keys;
      while todo != {}
        invariant todo <= routes.Keys
        invariant LongestPrefix(routes.Keys - todo, path, matched)
        invariant maxLen == if matched.None? then 0 else |matched.value|
      {
        var prefix :| prefix in todo;
        OneMoreKey(routes.Keys - todo, path, matched, prefix);
        if prefix <= path {
          if |prefix| > maxLen {
            maxLen := |prefix|;
            matched := Some(prefix);
          }
        }
        todo := todo - {prefix};
        assert routes.Keys - todo == routes.Keys - (todo + {prefix}) + {prefix};
      }
      assert routes.Keys - todo == routes.Keys;
    }
  }

  lemma ChosenFromTable(log: seq<Entry>, path: string, k: Option<string>)
    requires LongestPrefix(TableOf(log).Keys, path, k)
    ensures Chosen(log, path, if k.None? then None else Some(TableOf(log)[k.value]))
  {
    forall j | 0 <= j < |log| ensures log[j].path in TableOf(log) {
      RegisteredStays(log, j);
    }
    if k.Some? {
      var i := TableHasLast(log, k.value);
      TableHoldsLast(log, i);
    }
  }

  lemma {:induction false} RegisteredStays(log: seq<Entry>, j: nat)
    requires j < |log|
    ensures log[j].path in TableOf(log)
  {
    if j < |log| - 1 {
      RegisteredStays(log[..|log| - 1], j);
    }
  }

  /** After any run of registrations the session picks the last handler registered for the longest prefix. */
  method HandlerAfter(log: seq<Entry>, path: string) returns (r: Option<HandlerId>)
    ensures Chosen(log, path, r)
  {
    var table := new RouteTable();
    for i := 0 to |log|
      invariant fresh(table) && table.routes == TableOf(log[..i])
    {
      assert log[..i + 1][..i] == log[..i];
      table.Route(log[i].path, log[i].handler);
    }
    assert log[..|log|] == log;
    var matched := table.Select(path);
    ChosenFromTable(log, path, matched);
    r := if matched.None? then None else Some(table.routes[matched.value]);
  }
}
