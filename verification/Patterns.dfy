/** Route patterns as text: their grammar, the validator that guards it, and the scanner that reads tokens off it. */
module Patterns {
  import opened HttpTypes
  import opened Text
  import opened Tokens

  datatype RouteError =
    | NotRooted
    | MarkerInsideSegment
    | EmptyName
    | PartialSegment
    | CatchAllNotLast
    | DuplicateRoute
    | StaticIsNotSpecial
    | SpecialUnderSpecial

  // ----- grammar -----

  datatype Segment = Literal(text: string) | Named(name: string) | Rest(name: string)

  predicate Plain(s: string) { forall i | 0 <= i < |s| :: s[i] != '/' && !IsMarker(s[i]) }

  predicate GoodSegment(s: Segment, last: bool)
  {
    match s
    case Literal(text) => Plain(text)
    case Named(name) => name != "" && Plain(name)
    case Rest(name) => name != "" && Plain(name) && last
  }

  predicate Grammatical(ast: seq<Segment>)
  {
    ast == [] || (GoodSegment(ast[0], |ast| == 1) && Grammatical(ast[1..]))
  }

  function SegmentText(s: Segment): string
  {
    match s
    case Literal(text) => text
    case Named(name) => ":" + name
    case Rest(name) => "*" + name
  }

  function Print(ast: seq<Segment>): string
  {
    if ast == [] then "" else "/" + SegmentText(ast[0]) + Print(ast[1..])
  }

  ghost predicate ValidPattern(p: string)
  {
    exists ast :: ast != [] && Grammatical(ast) && Print(ast) == p
  }

  // ----- parsing -----

  predicate Rooted(p: string) { p == "" || p[0] == '/' }

  function Classify(text: string): Segment
  {
    if text != "" && text[0] == ':' then Named(text[1..])
    else if text != "" && text[0] == '*' then Rest(text[1..])
    else Literal(text)
  }

  function Parse(p: string): seq<Segment>
    requires Rooted(p)
    decreases |p|
  {
    if p == "" then []
    else
      var end := SegmentEnd(p, 1);
      [Classify(p[1..end])] + Parse(p[end..])
  }

  lemma ClassifyText(text: string)
    ensures SegmentText(Classify(text)) == text
  {
  }

  lemma ParseStep(p: string)
    requires p != "" && p[0] == '/'
    ensures var end := SegmentEnd(p, 1);
            && Parse(p) != [] && Parse(p)[0] == Classify(p[1..end]) && Parse(p)[1..] == Parse(p[end..])
            && (|Parse(p)| == 1 <==> end == |p|)
  {
    var end := SegmentEnd(p, 1);
    var rest := p[end..];
    assert Parse(p) == [Classify(p[1..end])] + Parse(rest);
    assert Parse(rest) == [] <==> rest == "";
  }

  lemma SplitFirstSegment(p: string, end: nat)
    requires p != "" && p[0] == '/' && 1 <= end <= |p|
    ensures "/" + p[1..end] + p[end..] == p
  {
  }

  lemma JoinFirstSegment(text: string, rest: string)
    ensures var p := "/" + text + rest; p[1..1 + |text|] == text && p[1 + |text|..] == rest
  {
  }

  lemma {:induction false} PrintParse(p: string)
    requires Rooted(p)
    ensures Print(Parse(p)) == p
    decreases |p|
  {
    if p != "" {
      ParseStep(p);
      ClassifyText(p[1..SegmentEnd(p, 1)]);
      PrintParse(p[SegmentEnd(p, 1)..]);
      SplitFirstSegment(p, SegmentEnd(p, 1));
    }
  }

  lemma ClassifyInverts(s: Segment, last: bool)
    requires GoodSegment(s, last)
    ensures Classify(SegmentText(s)) == s && '/' !in SegmentText(s)
  {
  }

  lemma {:induction false} ParsePrint(ast: seq<Segment>)
    requires Grammatical(ast)
    ensures Rooted(Print(ast)) && Parse(Print(ast)) == ast
  {
    if ast != [] {
      ParsePrint(ast[1..]);
      ClassifyInverts(ast[0], |ast| == 1);
      FirstSegmentEnds(SegmentText(ast[0]), Print(ast[1..]));
      JoinFirstSegment(SegmentText(ast[0]), Print(ast[1..]));
      assert Parse(Print(ast)) == [ast[0]] + ast[1..];
    }
  }

  lemma FirstSegmentEnds(text: string, rest: string)
    requires '/' !in text && Rooted(rest)
    ensures SegmentEnd("/" + text + rest, 1) == 1 + |text|
  {
    var p := "/" + text + rest;
    assert forall i | 1 <= i < 1 + |text| :: p[i] == text[i - 1];
    assert rest != "" ==> p[1 + |text|] == '/';
  }

  // ----- validation -----

  // What is wrong with the marker at `m`, judged by its own segment.
  function Fault(p: string, m: nat): Option<RouteError>
    requires m < |p| && IsMarker(p[m])
  {
    if m == 0 || p[m - 1] != '/' then Some(MarkerInsideSegment)
    else
      var end := SegmentEnd(p, m);
      var name := p[m + 1..end];
      if name == "" then Some(EmptyName)
      else if FindMarker(name, 0).Some? then Some(PartialSegment)
      else if p[m] == '*' && end != |p| then Some(CatchAllNotLast)
      else None
  }

  ghost predicate FaultlessUpTo(p: string, n: nat)
    requires n <= |p|
  {
    forall m | 0 <= m < n && IsMarker(p[m]) :: Fault(p, m) == None
  }

  ghost predicate Faultless(p: string) { FaultlessUpTo(p, |p|) }

  lemma FaultShift(p: string, k: nat, m: nat)
    requires k < m < |p| && IsMarker(p[m])
    ensures Fault(p[k..], m - k) == Fault(p, m)
  {
    var q := p[k..];
    var e := SegmentEnd(q, m - k);
    assert forall i | m <= i < k + e :: p[i] == q[i - k];
    assert e < |q| ==> p[k + e] == q[e];
    assert SegmentEnd(p, m) == k + e;
    assert p[m + 1..k + e] == q[m - k + 1..e];
  }

  lemma FaultlessRest(p: string, k: nat)
    requires k <= |p| && Rooted(p[k..])
    requires Faultless(p)
    ensures Faultless(p[k..])
  {
    var q := p[k..];
    forall m | 0 <= m < |q| && IsMarker(q[m])
      ensures Fault(q, m) == None
    {
      assert m > 0 && p[k + m] == q[m];
      assert Fault(p, k + m) == None;
      FaultShift(p, k, k + m);
    }
  }

  lemma FirstSegmentFaults(p: string)
    requires p != "" && p[0] == '/'
    ensures var end := SegmentEnd(p, 1);
            FaultlessUpTo(p, end) <==> GoodSegment(Classify(p[1..end]), end == |p|)
  {
    var end := SegmentEnd(p, 1);
    var text := p[1..end];
    assert forall i | 0 <= i < |text| :: text[i] == p[i + 1];
    match FindMarker(text, 0)
    case None =>
      assert Plain(text);
    case Some(i) =>
      assert IsMarker(p[i + 1]);
      if i > 0 {
        assert Fault(p, i + 1) == Some(MarkerInsideSegment);
        assert !IsMarker(text[0]);
      } else {
        assert SegmentEnd(p, 1) == end;
        var name := p[2..end];
        assert name == text[1..];
        assert forall j | 0 <= j < |name| :: name[j] == p[j + 2];
      }
  }

  /** The marker-by-marker check and the segment grammar accept the same texts. */
  lemma {:induction false} FaultlessIffGrammatical(p: string)
    requires Rooted(p)
    ensures Faultless(p) <==> Grammatical(Parse(p))
    decreases |p|
  {
    if p != "" {
      var end := SegmentEnd(p, 1);
      var q := p[end..];
      FaultlessIffGrammatical(q);
      FirstSegmentFaults(p);
      if Faultless(p) {
        FaultlessRest(p, end);
      }
      if FaultlessUpTo(p, end) && Faultless(q) {
        forall m | 0 <= m < |p| && IsMarker(p[m])
          ensures Fault(p, m) == None
        {
          if m >= end {
            assert IsMarker(q[m - end]);
            FaultShift(p, end, m);
          }
        }
      }
      assert Parse(p)[1..] == Parse(q);
      assert |Parse(p)| == 1 <==> q == "";
    }
  }

  lemma ValidIffFaultless(p: string)
    ensures ValidPattern(p) <==> p != "" && p[0] == '/' && Faultless(p)
  {
    if ValidPattern(p) {
      var ast :| ast != [] && Grammatical(ast) && Print(ast) == p;
      ParsePrint(ast);
      FaultlessIffGrammatical(p);
    }
    if p != "" && p[0] == '/' && Faultless(p) {
      FaultlessIffGrammatical(p);
      PrintParse(p);
      assert Parse(p) != [];
    }
  }

  // The verdict belongs to the leftmost faulty marker.
  ghost predicate LeftmostFault(p: string, e: RouteError)
  {
    exists m :: 0 <= m < |p| && IsMarker(p[m]) && Fault(p, m) == Some(e) && FaultlessUpTo(p, m)
  }

  // A faultless marker leaves no other marker in its segment.
  lemma NextPosition(p: string, marker: nat, end: nat, name: string)
    requires marker < end <= |p| && IsMarker(p[marker]) && Fault(p, marker) == None && FaultlessUpTo(p, marker)
    requires name == p[marker + 1..end] && FindMarker(name, 0) == None
    ensures FaultlessUpTo(p, end)
  {
    assert forall i | marker < i < end :: p[i] == name[i - marker - 1];
  }

  // Which error a bad segment stands for, read off its text.
  ghost predicate ErrorFits(text: string, last: bool, e: RouteError)
  {
    var marked := text != "" && IsMarker(text[0]);
    && (e == MarkerInsideSegment <==> !marked)
    && (e == EmptyName <==> text == ":" || text == "*")
    && (e == PartialSegment <==> marked && exists k :: 1 <= k < |text| && IsMarker(text[k]))
    && (e == CatchAllNotLast <==> marked && text[0] == '*' && |text| > 1 && Plain(text[1..]) && !last)
  }

  ghost predicate FirstBad(ast: seq<Segment>, i: nat)
  {
    && i < |ast| && !GoodSegment(ast[i], i == |ast| - 1)
    && forall j | 0 <= j < i :: GoodSegment(ast[j], j == |ast| - 1)
  }

  // The verdict on a rooted text is the error of its first bad segment.
  ghost predicate VerdictFits(p: string, e: RouteError)
  {
    && Rooted(p)
    && exists i: nat :: FirstBad(Parse(p), i) && ErrorFits(SegmentText(Parse(p)[i]), i == |Parse(p)| - 1, e)
  }

  lemma NoEarlierMarker(p: string, m: nat)
    requires p != "" && p[0] == '/' && 1 < m < SegmentEnd(p, 1) && IsMarker(p[m]) && FaultlessUpTo(p, m)
    ensures !IsMarker(p[1])
  {
    var name := p[2..SegmentEnd(p, 1)];
    assert name[m - 2] == p[m];
  }

  // The leftmost faulty marker of a text that is in its first segment.
  lemma FaultInFirstSegment(p: string, m: nat, e: RouteError)
    requires p != "" && p[0] == '/' && m < SegmentEnd(p, 1) && IsMarker(p[m])
    requires Fault(p, m) == Some(e) && FaultlessUpTo(p, m)
    ensures ErrorFits(p[1..SegmentEnd(p, 1)], SegmentEnd(p, 1) == |p|, e)
  {
    var end := SegmentEnd(p, 1);
    var text := p[1..end];
    assert forall i | 0 <= i < |text| :: text[i] == p[i + 1];
    assert text[m - 1] == p[m];
    if m > 1 {
      NoEarlierMarker(p, m);
      assert text[0] == p[1];
    } else {
      assert SegmentEnd(p, 1) == end;
      var name := p[2..end];
      assert name == text[1..];
      assert forall j | 0 <= j < |name| :: name[j] == text[j + 1];
      assert name == "" <==> text == [p[1]];
    }
  }

  lemma FaultAfterFirst(p: string, end: nat, m: nat)
    requires p != "" && p[0] == '/' && end == SegmentEnd(p, 1) <= m < |p| && IsMarker(p[m]) && FaultlessUpTo(p, m)
    ensures end < m && p[end..][m - end] == p[m]
    ensures Fault(p[end..], m - end) == Fault(p, m) && FaultlessUpTo(p[end..], m - end)
    ensures Parse(p) != [] && GoodSegment(Parse(p)[0], |Parse(p)| == 1)
  {
    var q := p[end..];
    FaultShift(p, end, m);
    forall k | 0 <= k < m - end && IsMarker(q[k]) ensures Fault(q, k) == None {
      assert k > 0 && q[k] == p[end + k];
      FaultShift(p, end, end + k);
    }
    FirstSegmentFaults(p);
    ParseStep(p);
  }

  lemma FaultStartsBad(p: string, m: nat, e: RouteError)
    requires p != "" && p[0] == '/' && m < SegmentEnd(p, 1) && IsMarker(p[m])
    requires Fault(p, m) == Some(e) && FaultlessUpTo(p, m)
    ensures VerdictFits(p, e)
  {
    ParseStep(p);
    ClassifyText(p[1..SegmentEnd(p, 1)]);
    FirstSegmentFaults(p);
    FaultInFirstSegment(p, m, e);
    assert FirstBad(Parse(p), 0);
  }

  /** The fault of the leftmost faulty marker is the error of the first bad segment. */
  lemma {:induction false} FaultIsSegmentError(p: string, m: nat, e: RouteError)
    requires p != "" && p[0] == '/' && m < |p| && IsMarker(p[m])
    requires Fault(p, m) == Some(e) && FaultlessUpTo(p, m)
    ensures VerdictFits(p, e) && LeftmostFault(p, e)
    decreases |p|
  {
    var end := SegmentEnd(p, 1);
    if m < end {
      FaultStartsBad(p, m, e);
    } else {
      var q := p[end..];
      FaultAfterFirst(p, end, m);
      FaultIsSegmentError(q, m - end, e);
      var i: nat :| FirstBad(Parse(q), i) && ErrorFits(SegmentText(Parse(q)[i]), i == |Parse(q)| - 1, e);
      ParseStep(p);
      LaterBad(Parse(p), Parse(q), i);
    }
  }

  lemma LaterBad(ast: seq<Segment>, rest: seq<Segment>, i: nat)
    requires ast != [] && ast[1..] == rest && GoodSegment(ast[0], |ast| == 1) && FirstBad(rest, i)
    ensures FirstBad(ast, i + 1) && ast[i + 1] == rest[i] && |ast| == |rest| + 1
  {
    assert forall j | 1 <= j < |ast| :: ast[j] == rest[j - 1];
  }

  method ValidatePattern(pattern: string) returns (r: Result<(), RouteError>)
    ensures r.Ok? <==> ValidPattern(pattern)
    ensures pattern == "" || pattern[0] != '/' ==> r == Err(NotRooted)
    ensures pattern != "" && pattern[0] == '/' && r.Err? ==> LeftmostFault(pattern, r.error)
    ensures pattern != "" && pattern[0] == '/' && r.Err? ==> VerdictFits(pattern, r.error)
  {
    ValidIffFaultless(pattern);
    if pattern == "" || pattern[0] != '/' {
      return Err(NotRooted);
    }
    var position := 0;
    while true
      invariant position <= |pattern|
      invariant FaultlessUpTo(pattern, position)
      decreases |pattern| - position
    {
      var found := FindMarker(pattern, position);
      if found.None? {
        return Ok(());
      }
      var marker := found.value;
      assert FaultlessUpTo(pattern, marker);
      if marker == 0 || pattern[marker - 1] != '/' {
        FaultIsSegmentError(pattern, marker, MarkerInsideSegment);
        return Err(MarkerInsideSegment);
      }
      var slash := Find(pattern, '/', marker);
      var end := if slash.None? then |pattern| else slash.value;
      var name := pattern[marker + 1..end];
      if name == "" {
        FaultIsSegmentError(pattern, marker, EmptyName);
        return Err(EmptyName);
      }
      if FindMarker(name, 0).Some? {
        FaultIsSegmentError(pattern, marker, PartialSegment);
        return Err(PartialSegment);
      }
      if pattern[marker] == '*' && end != |pattern| {
        FaultIsSegmentError(pattern, marker, CatchAllNotLast);
        return Err(CatchAllNotLast);
      }
      NextPosition(pattern, marker, end, name);
      position := end;
    }
  }

  // ----- scanning -----

  // The special part that starts at a marker: a catch-all runs to the end, a parameter to the next '/'.
  function SpecialEnd(p: string, m: nat): (e: nat)
    requires m < |p| && IsMarker(p[m])
    ensures m < e <= |p|
  {
    if p[m] == '*' then |p| else SegmentEnd(p, m)
  }

  function Mark(c: char): Token { if c == '*' then CatchAll else Param }

  function ScanTokens(p: string): Path
    decreases |p|
  {
    match FindMarker(p, 0)
    case None => Lits(p)
    case Some(m) =>
      Lits(p[..m]) + [Mark(p[m])] + ScanTokens(p[SpecialEnd(p, m)..])
  }

  function ScanNames(p: string): seq<string>
    decreases |p|
  {
    match FindMarker(p, 0)
    case None => []
    case Some(m) => [p[m + 1..SpecialEnd(p, m)]] + ScanNames(p[SpecialEnd(p, m)..])
  }

  function SegmentTokens(s: Segment): Path
  {
    match s
    case Literal(text) => Lits(text)
    case Named(_) => [Param]
    case Rest(_) => [CatchAll]
  }

  function SegmentNames(s: Segment): seq<string>
  {
    match s
    case Literal(_) => []
    case _ => [s.name]
  }

  function TokensOf(ast: seq<Segment>): Path
  {
    if ast == [] then [] else [Lit('/')] + SegmentTokens(ast[0]) + TokensOf(ast[1..])
  }

  function NamesOf(ast: seq<Segment>): seq<string>
  {
    if ast == [] then [] else SegmentNames(ast[0]) + NamesOf(ast[1..])
  }

  lemma FindMarkerShift(a: string, rest: string)
    requires MarkerFree(a)
    ensures var m := FindMarker(rest, 0);
            FindMarker(a + rest, 0) == if m.None? then None else Some(|a| + m.value)
  {
    var p := a + rest;
    assert forall i | 0 <= i < |a| :: p[i] == a[i];
    assert forall i | 0 <= i < |rest| :: p[|a| + i] == rest[i];
  }

  lemma SpecialEndShift(a: string, rest: string, m: nat)
    requires m < |rest| && IsMarker(rest[m])
    ensures SpecialEnd(a + rest, |a| + m) == |a| + SpecialEnd(rest, m)
  {
    var p := a + rest;
    var e := SegmentEnd(rest, m);
    assert forall i | |a| + m <= i < |p| :: p[i] == rest[i - |a|];
    assert e < |rest| ==> p[|a| + e] == rest[e];
    assert SegmentEnd(p, |a| + m) == |a| + e;
  }

  lemma ConcatAssoc<T>(a: seq<T>, b: seq<T>, c: seq<T>)
    ensures (a + b) + c == a + (b + c)
  {
  }

  lemma ScanStep(p: string, m: nat, name: string, after: string)
    requires FindMarker(p, 0) == Some(m)
    requires name == p[m + 1..SpecialEnd(p, m)] && after == p[SpecialEnd(p, m)..]
    ensures ScanTokens(p) == Lits(p[..m]) + ([Mark(p[m])] + ScanTokens(after))
    ensures ScanNames(p) == [name] + ScanNames(after)
  {
    ConcatAssoc(Lits(p[..m]), [Mark(p[m])], ScanTokens(after));
  }

  lemma SliceShift(p: string, a: string, s: string, m: nat, e: nat)
    requires p == a + s && m < e <= |s|
    ensures p[..|a| + m] == a + s[..m] && p[|a| + m] == s[m]
    ensures p[|a| + m + 1..|a| + e] == s[m + 1..e] && p[|a| + e..] == s[e..]
  {
  }

  lemma ScanShifted(p: string, a: string, rest: string, m: nat, name: string, after: string)
    requires p == a + rest && MarkerFree(a) && FindMarker(rest, 0) == Some(m)
    requires name == rest[m + 1..SpecialEnd(rest, m)] && after == rest[SpecialEnd(rest, m)..]
    ensures ScanTokens(p) == Lits(a + rest[..m]) + ([Mark(rest[m])] + ScanTokens(after))
    ensures ScanNames(p) == [name] + ScanNames(after)
  {
    var n, e := |a| + m, SpecialEnd(rest, m);
    FindMarkerShift(a, rest);
    SpecialEndShift(a, rest, m);
    SliceShift(p, a, rest, m, e);
    ScanStep(p, n, name, after);
  }

  lemma ScanLiteralMarked(p: string, a: string, rest: string, m: nat)
    requires p == a + rest && MarkerFree(a) && FindMarker(rest, 0) == Some(m)
    ensures ScanTokens(p) == Lits(a) + ScanTokens(rest)
    ensures ScanNames(p) == ScanNames(rest)
  {
    var name, after := rest[m + 1..SpecialEnd(rest, m)], rest[SpecialEnd(rest, m)..];
    ScanShifted(p, a, rest, m, name, after);
    ScanStep(rest, m, name, after);
    LitsConcat(a, rest[..m]);
    ConcatAssoc(Lits(a), Lits(rest[..m]), [Mark(rest[m])] + ScanTokens(after));
  }

  lemma ScanLiteral(a: string, rest: string)
    requires MarkerFree(a)
    ensures ScanTokens(a + rest) == Lits(a) + ScanTokens(rest)
    ensures ScanNames(a + rest) == ScanNames(rest)
  {
    var m := FindMarker(rest, 0);
    if m.None? {
      FindMarkerShift(a, rest);
      LitsConcat(a, rest);
    } else {
      ScanLiteralMarked(a + rest, a, rest, m.value);
    }
  }

  lemma ScanSpecial(p: string, name: string, after: string)
    requires |p| >= 2 && p[0] == '/' && IsMarker(p[1])
    requires name == p[2..SpecialEnd(p, 1)] && after == p[SpecialEnd(p, 1)..]
    ensures ScanTokens(p) == [Lit('/')] + ([Mark(p[1])] + ScanTokens(after))
    ensures ScanNames(p) == [name] + ScanNames(after)
  {
    assert FindMarker(p, 0) == Some(1);
    ScanStep(p, 1, name, after);
    assert Lits(p[..1]) == [Lit('/')];
  }

  lemma ScanFirstSegment(p: string)
    requires p != "" && p[0] == '/' && FaultlessUpTo(p, SegmentEnd(p, 1))
    ensures var end := SegmentEnd(p, 1);
            var seg := Classify(p[1..end]);
            && ScanTokens(p) == [Lit('/')] + SegmentTokens(seg) + ScanTokens(p[end..])
            && ScanNames(p) == SegmentNames(seg) + ScanNames(p[end..])
  {
    var end := SegmentEnd(p, 1);
    var text, q := p[1..end], p[end..];
    FirstSegmentFaults(p);
    ConcatAssoc([Lit('/')], SegmentTokens(Classify(text)), ScanTokens(q));
    if Classify(text).Literal? {
      SplitFirstSegment(p, end);
      ScanLiteral("/" + text, q);
      LitsConcat("/", text);
      assert Lits("/") == [Lit('/')];
    } else {
      assert p[1] == text[0] && p[2..end] == text[1..];
      assert SpecialEnd(p, 1) == end;
      ScanSpecial(p, text[1..], q);
    }
  }

  lemma TurnSlices(p: string, m: nat, rest: string, end: nat)
    requires m < |p| && rest == p[m..] && IsMarker(p[m])
    requires 1 <= end && end == if rest[0] == '*' then |rest| else SegmentEnd(rest, 0)
    ensures SpecialEnd(p, m) == m + end
    ensures p[m + 1..m + end] == rest[1..end] && p[m + end..] == rest[end..] && Rooted(rest[end..])
  {
    assert p == p[..m] + rest;
    SpecialEndShift(p[..m], rest, 0);
  }

  lemma TurnRest(p: string, m: nat, k: nat)
    requires p != "" && p[0] == '/' && Faultless(p) && FindMarker(p, 0) == Some(m)
    requires k == SpecialEnd(p, m)
    ensures 0 < m && p[m - 1] == '/' && Rooted(p[k..]) && Faultless(p[k..])
  {
    assert Fault(p, m) == None;
    FaultlessRest(p, k);
  }

  // One turn of the insertion loop: the marker at `m` stands right after a '/', and what follows its part is a pattern tail again.
  lemma ScanTurn(p: string, m: nat, rest: string, end: nat, name: string, after: string)
    requires p != "" && p[0] == '/' && Faultless(p) && FindMarker(p, 0) == Some(m) && rest == p[m..]
    requires end == if rest[0] == '*' then |rest| else SegmentEnd(rest, 0)
    requires 1 <= end && name == rest[1..end] && after == rest[end..]
    ensures 0 < m && p[m - 1] == '/'
    ensures ScanTokens(p) == Lits(p[..m]) + ([Mark(rest[0])] + ScanTokens(after))
    ensures ScanNames(p) == [name] + ScanNames(after)
    ensures Rooted(after) && Faultless(after) && (rest[0] == '*' ==> after == "")
  {
    TurnSlices(p, m, rest, end);
    TurnRest(p, m, m + end);
    ScanStep(p, m, name, after);
  }

  /** The insertion loop's scanner and the grammar read the same tokens and names off a pattern. */
  lemma {:induction false} ScannersAgree(p: string)
    requires Rooted(p) && Faultless(p)
    ensures ScanTokens(p) == TokensOf(Parse(p))
    ensures ScanNames(p) == NamesOf(Parse(p))
    decreases |p|
  {
    if p != "" {
      var end := SegmentEnd(p, 1);
      FaultlessRest(p, end);
      ScannersAgree(p[end..]);
      ParseStep(p);
      ScanFirstSegment(p);
    }
  }

  // Writes a token list back as text, given the names of its special tokens.
  function Render(ts: Path, names: seq<string>): string
    requires |names| == Specials(ts)
  {
    if ts == [] then ""
    else match ts[0]
      case Lit(c) => [c] + Render(ts[1..], names)
      case Param => ":" + names[0] + Render(ts[1..], names[1..])
      case CatchAll => "*" + names[0] + Render(ts[1..], names[1..])
  }

  lemma {:induction false} RenderLits(s: string, ts: Path, names: seq<string>)
    requires |names| == Specials(ts)
    ensures Specials(Lits(s) + ts) == Specials(ts)
    ensures Render(Lits(s) + ts, names) == s + Render(ts, names)
  {
    var all := Lits(s) + ts;
    if s == "" {
      assert all == ts;
    } else {
      assert all[0] == Lit(s[0]) && all[1..] == Lits(s[1..]) + ts;
      RenderLits(s[1..], ts, names);
      assert Render(all, names) == [s[0]] + (s[1..] + Render(ts, names));
      assert s == [s[0]] + s[1..];
    }
  }

  lemma {:induction false} BoundedLits(s: string, ts: Path)
    ensures Bounded(Lits(s) + ts) <==> Bounded(ts)
  {
    if s == "" {
      assert Lits(s) + ts == ts;
    } else {
      assert (Lits(s) + ts)[1..] == Lits(s[1..]) + ts;
      BoundedLits(s[1..], ts);
    }
  }

  lemma LiteralSegment(text: string, rest: Path)
    ensures [Lit('/')] + Lits(text) + rest == Lits("/" + text) + rest
  {
    LitsConcat("/", text);
    assert Lits("/") == [Lit('/')];
  }

  lemma RenderSegment(s: Segment, rest: Path, names: seq<string>)
    requires GoodSegment(s, rest == []) && Bounded(rest) && (rest == [] || rest[0] == Lit('/'))
    requires |names| == Specials(rest)
    ensures var ts := [Lit('/')] + SegmentTokens(s) + rest;
            && Bounded(ts) && |SegmentNames(s) + names| == Specials(ts)
            && Render(ts, SegmentNames(s) + names) == "/" + SegmentText(s) + Render(rest, names)
  {
    if s.Literal? {
      LiteralSegment(s.text, rest);
      RenderLits("/" + s.text, rest, names);
      BoundedLits("/" + s.text, rest);
      assert SegmentNames(s) + names == names;
    } else {
      var special, all := SegmentTokens(s), SegmentNames(s) + names;
      var ts := [Lit('/')] + special + rest;
      assert ts[1..] == special + rest && (special + rest)[1..] == rest;
      assert all[0] == s.name && all[1..] == names;
      assert Render(special + rest, all) == SegmentText(s) + Render(rest, names);
      assert Bounded(special + rest);
    }
  }

  lemma {:induction false} RenderPrints(ast: seq<Segment>)
    requires Grammatical(ast)
    ensures Bounded(TokensOf(ast)) && (TokensOf(ast) == [] || TokensOf(ast)[0] == Lit('/'))
    ensures |NamesOf(ast)| == Specials(TokensOf(ast))
    ensures Render(TokensOf(ast), NamesOf(ast)) == Print(ast)
  {
    if ast != [] {
      RenderPrints(ast[1..]);
      assert TokensOf(ast[1..]) == [] <==> ast[1..] == [];
      RenderSegment(ast[0], TokensOf(ast[1..]), NamesOf(ast[1..]));
    }
  }

  /** What a valid pattern is read as: bounded tokens, one name for each special token, nothing lost. */
  lemma ScanIsFaithful(p: string)
    requires ValidPattern(p)
    ensures Bounded(ScanTokens(p))
    ensures |ScanNames(p)| == Specials(ScanTokens(p))
    ensures Render(ScanTokens(p), ScanNames(p)) == p
    ensures ScanTokens(p) != [] && ScanTokens(p)[0] == Lit('/')
  {
    ValidIffFaultless(p);
    FaultlessIffGrammatical(p);
    ScannersAgree(p);
    RenderPrints(Parse(p));
    PrintParse(p);
  }

  // ----- identity of patterns -----

  function EraseName(s: Segment): Segment
  {
    match s
    case Literal(_) => s
    case Named(_) => Named("")
    case Rest(_) => Rest("")
  }

  ghost predicate SameShape(a: seq<Segment>, b: seq<Segment>)
  {
    |a| == |b| && forall i | 0 <= i < |a| :: EraseName(a[i]) == EraseName(b[i])
  }

  lemma LiteralPrefixUnique(s: string, x: Path, t: string, y: Path)
    requires '/' !in s && '/' !in t
    requires (x == [] || x[0] == Lit('/')) && (y == [] || y[0] == Lit('/'))
    requires Lits(s) + x == Lits(t) + y
    ensures s == t && x == y
  {
    var l, r := Lits(s) + x, Lits(t) + y;
    assert forall i | 0 <= i < |s| :: l[i] == Lit(s[i]) && s[i] in s;
    assert forall i | 0 <= i < |t| :: r[i] == Lit(t[i]) && t[i] in t;
    assert |s| < |l| ==> l[|s|] == x[0];
    assert |t| < |r| ==> r[|t|] == y[0];
    assert |s| == |t|;
    forall i | 0 <= i < |s| ensures s[i] == t[i] {
      assert l[i] == Lit(s[i]) && r[i] == Lit(t[i]);
    }
    assert x == l[|s|..] && y == r[|t|..];
  }

  lemma FirstSegmentUnique(a: Segment, x: Path, b: Segment, y: Path)
    requires GoodSegment(a, x == []) && GoodSegment(b, y == [])
    requires (x == [] || x[0] == Lit('/')) && (y == [] || y[0] == Lit('/'))
    requires SegmentTokens(a) + x == SegmentTokens(b) + y
    ensures EraseName(a) == EraseName(b) && x == y
  {
    if a.Literal? && b.Literal? {
      LiteralPrefixUnique(a.text, x, b.text, y);
    } else {
      var l, r := SegmentTokens(a) + x, SegmentTokens(b) + y;
      assert !a.Literal? ==> l[0] == SegmentTokens(a)[0] && l[1..] == x;
      assert !b.Literal? ==> r[0] == SegmentTokens(b)[0] && r[1..] == y;
    }
  }

  lemma SameShapeStep(a: seq<Segment>, b: seq<Segment>)
    requires a != [] && b != []
    ensures SameShape(a, b) <==> EraseName(a[0]) == EraseName(b[0]) && SameShape(a[1..], b[1..])
  {
    var a', b' := a[1..], b[1..];
    assert forall i | 0 <= i < |a'| :: a'[i] == a[i + 1];
    assert forall i | 0 <= i < |b'| :: b'[i] == b[i + 1];
    if EraseName(a[0]) == EraseName(b[0]) && SameShape(a', b') {
      forall i | 0 <= i < |a| ensures EraseName(a[i]) == EraseName(b[i]) {
        if i > 0 {
          assert EraseName(a'[i - 1]) == EraseName(b'[i - 1]);
        }
      }
    }
    if SameShape(a, b) {
      forall i | 0 <= i < |a'| ensures EraseName(a'[i]) == EraseName(b'[i]) {
        assert EraseName(a[i + 1]) == EraseName(b[i + 1]);
      }
    }
  }

  lemma TokensStart(ast: seq<Segment>)
    ensures TokensOf(ast) == [] <==> ast == []
    ensures ast != [] ==> TokensOf(ast)[0] == Lit('/')
  {
  }

  /** Two patterns share a place in the tree exactly when they are equal up to parameter names. */
  lemma {:induction false} SameTokensIffSameShape(a: seq<Segment>, b: seq<Segment>)
    requires Grammatical(a) && Grammatical(b)
    ensures TokensOf(a) == TokensOf(b) <==> SameShape(a, b)
  {
    if a != [] && b != [] {
      var x, y := TokensOf(a[1..]), TokensOf(b[1..]);
      var s, t := SegmentTokens(a[0]), SegmentTokens(b[0]);
      SameTokensIffSameShape(a[1..], b[1..]);
      SameShapeStep(a, b);
      assert TokensOf(a) == [Lit('/')] + s + x && TokensOf(b) == [Lit('/')] + t + y;
      ConcatAssoc([Lit('/')], s, x);
      ConcatAssoc([Lit('/')], t, y);
      TokensStart(a[1..]);
      TokensStart(b[1..]);
      if TokensOf(a) == TokensOf(b) {
        assert s + x == ([Lit('/')] + (s + x))[1..] == ([Lit('/')] + (t + y))[1..] == t + y;
        FirstSegmentUnique(a[0], x, b[0], y);
      }
    }
  }

  /** A valid pattern is a duplicate of another of the same verb exactly when only parameter names set them apart. */
  lemma SamePatternPlace(p: string, q: string)
    requires ValidPattern(p) && ValidPattern(q)
    ensures Rooted(p) && Rooted(q)
    ensures ScanTokens(p) == ScanTokens(q) <==> SameShape(Parse(p), Parse(q))
  {
    ValidIffFaultless(p);
    ValidIffFaultless(q);
    FaultlessIffGrammatical(p);
    FaultlessIffGrammatical(q);
    ScannersAgree(p);
    ScannersAgree(q);
    SameTokensIffSameShape(Parse(p), Parse(q));
  }
}
