/** Abstract route patterns: what a pattern matches, and which of two matching patterns goes first. */
module Tokens {
  import opened HttpTypes
  import opened Text

  datatype Token = Lit(c: char) | Param | CatchAll

  type Path = seq<Token>

  function Lits(s: string): (ts: Path)
    ensures |ts| == |s|
    ensures forall i | 0 <= i < |s| :: ts[i] == Lit(s[i])
  {
    seq(|s|, i requires 0 <= i < |s| => Lit(s[i]))
  }

  lemma LitsConcat(a: string, b: string)
    ensures Lits(a + b) == Lits(a) + Lits(b)
  {
  }

  // ----- matching -----

  // The captures with which `ts` matches the whole of `path`, if it does.
  function Captures(ts: Path, path: string): Option<seq<string>>
  {
    if ts == [] then
      if path == "" then Some([]) else None
    else match ts[0]
      case Lit(c) =>
        if path != "" && path[0] == c then Captures(ts[1..], path[1..]) else None
      case Param =>
        if path == "" || path[0] == '/' then None
        else
          var end := SegmentEnd(path, 0);
          (match Captures(ts[1..], path[end..])
           case None => None
           case Some(vs) => Some([path[..end]] + vs))
      case CatchAll =>
        if |ts| == 1 && path != "" && path != "/" then Some([path]) else None
  }

  function Specials(ts: Path): nat
  {
    if ts == [] then 0 else (if ts[0].Lit? then 0 else 1) + Specials(ts[1..])
  }

  // Substitutes the values for the parameters and the catch-all.
  function Fill(ts: Path, vs: seq<string>): string
    requires |vs| == Specials(ts)
  {
    if ts == [] then ""
    else match ts[0]
      case Lit(c) => [c] + Fill(ts[1..], vs)
      case _ => vs[0] + Fill(ts[1..], vs[1..])
  }

  // A parameter takes a non-empty piece of one segment; a catch-all anything but "" and "/".
  predicate ValuesFit(ts: Path, vs: seq<string>)
  {
    && |vs| == Specials(ts)
    && (ts != [] ==>
          match ts[0]
          case Lit(_) => ValuesFit(ts[1..], vs)
          case Param => vs[0] != "" && '/' !in vs[0] && ValuesFit(ts[1..], vs[1..])
          case CatchAll => vs[0] != "" && vs[0] != "/" && ValuesFit(ts[1..], vs[1..]))
  }

  // A parameter fills its segment to the end, and a catch-all is the last token.
  predicate Bounded(ts: Path)
  {
    ts == [] ||
    match ts[0]
    case Lit(_) => Bounded(ts[1..])
    case Param => (|ts| == 1 || ts[1] == Lit('/')) && Bounded(ts[1..])
    case CatchAll => |ts| == 1
  }

  lemma {:induction false} CapturesFill(ts: Path, path: string)
    requires Captures(ts, path).Some?
    ensures var vs := Captures(ts, path).value; ValuesFit(ts, vs) && Fill(ts, vs) == path
  {
    if ts != [] {
      match ts[0]
      case Lit(c) =>
        CapturesFill(ts[1..], path[1..]);
      case Param =>
        var end := SegmentEnd(path, 0);
        CapturesFill(ts[1..], path[end..]);
        var vs := Captures(ts[1..], path[end..]).value;
        assert Captures(ts, path).value[1..] == vs;
      case CatchAll =>
        assert ts[1..] == [];
        var vs := Captures(ts, path).value;
        assert vs[1..] == [] && Fill(ts, vs) == path + "";
    }
  }

  lemma SegmentEndOf(value: string, rest: string)
    requires '/' !in value && (rest == "" || rest[0] == '/')
    ensures SegmentEnd(value + rest, 0) == |value|
  {
    var s := value + rest;
    assert forall i | 0 <= i < |value| :: s[i] == value[i];
    assert rest != "" ==> s[|value|] == '/';
  }

  lemma {:induction false} FillMatches(ts: Path, vs: seq<string>)
    requires Bounded(ts) && ValuesFit(ts, vs)
    ensures Captures(ts, Fill(ts, vs)) == Some(vs)
  {
    if ts != [] {
      var path := Fill(ts, vs);
      match ts[0]
      case Lit(c) =>
        FillMatches(ts[1..], vs);
        assert path[1..] == Fill(ts[1..], vs);
      case Param =>
        var rest := Fill(ts[1..], vs[1..]);
        FillMatches(ts[1..], vs[1..]);
        SegmentEndOf(vs[0], rest);
        assert path[..|vs[0]|] == vs[0] && path[|vs[0]|..] == rest;
        assert vs == [vs[0]] + vs[1..];
      case CatchAll =>
        assert ts[1..] == [] && Specials(ts[1..]) == 0;
        assert vs == [vs[0]];
        assert path == vs[0] + Fill(ts[1..], vs[1..]) == vs[0];
    }
  }

  /** Matching is inverse to substitution: `vs` are the captures of `path` exactly when they fit the
      tokens and put back in place they spell `path`. */
  lemma MatchIffFill(ts: Path, path: string, vs: seq<string>)
    requires Bounded(ts)
    ensures Captures(ts, path) == Some(vs) <==> ValuesFit(ts, vs) && Fill(ts, vs) == path
  {
    if Captures(ts, path) == Some(vs) {
      CapturesFill(ts, path);
    }
    if ValuesFit(ts, vs) && Fill(ts, vs) == path {
      FillMatches(ts, vs);
    }
  }

  lemma {:induction false} MatchLits(p: string, ts: Path, path: string)
    ensures Captures(Lits(p) + ts, path) == if p <= path then Captures(ts, path[|p|..]) else None
  {
    var all := Lits(p) + ts;
    if p == "" {
      assert all == ts && path[0..] == path;
    } else {
      assert all[1..] == Lits(p[1..]) + ts;
      if path != "" && path[0] == p[0] {
        MatchLits(p[1..], ts, path[1..]);
        assert p == [p[0]] + p[1..] && path == [path[0]] + path[1..];
        assert p <= path <==> p[1..] <= path[1..];
        if p <= path {
          assert path[1..][|p| - 1..] == path[|p|..];
        }
      }
    }
  }

  // ----- precedence -----

  function Rank(t: Token): nat
  {
    match t
    case Lit(_) => 0
    case Param => 1
    case CatchAll => 2
  }

  // At the first token where the two differ, `a` has the more specific one.
  predicate Before(a: Path, b: Path)
  {
    && a != [] && b != []
    && (Rank(a[0]) < Rank(b[0]) || (a[0] == b[0] && Before(a[1..], b[1..])))
  }

  /** `Before` is decided by the first difference alone. */
  lemma {:induction false} BeforeIffFirstDifference(a: Path, b: Path)
    ensures Before(a, b) <==>
            exists i :: 0 <= i < |a| && i < |b| && a[..i] == b[..i] && Rank(a[i]) < Rank(b[i])
  {
    if a != [] && b != [] {
      BeforeIffFirstDifference(a[1..], b[1..]);
      if Before(a, b) {
        if Rank(a[0]) < Rank(b[0]) {
          assert a[..0] == b[..0];
        } else {
          var a', b' := a[1..], b[1..];
          var i :| 0 <= i < |a'| && i < |b'| && a'[..i] == b'[..i] && Rank(a'[i]) < Rank(b'[i]);
          assert a[..i + 1] == [a[0]] + a'[..i] && b[..i + 1] == [b[0]] + b'[..i];
          assert Rank(a[i + 1]) < Rank(b[i + 1]);
        }
      }
      if i :| 0 <= i < |a| && i < |b| && a[..i] == b[..i] && Rank(a[i]) < Rank(b[i]) {
        if i > 0 {
          assert a[0] == a[..i][0] == b[..i][0] == b[0];
          assert a[1..][..i - 1] == a[..i][1..] && b[1..][..i - 1] == b[..i][1..];
          assert Rank(a[1..][i - 1]) < Rank(b[1..][i - 1]);
        }
      }
    }
  }

  lemma {:induction false} BeforePrefix(p: Path, a: Path, b: Path)
    ensures Before(p + a, p + b) <==> Before(a, b)
  {
    if p == [] {
      assert p + a == a && p + b == b;
    } else {
      assert (p + a)[1..] == p[1..] + a && (p + b)[1..] == p[1..] + b;
      BeforePrefix(p[1..], a, b);
    }
  }

  lemma {:induction false} BeforeTransitive(a: Path, b: Path, c: Path)
    requires Before(a, b) && Before(b, c)
    ensures Before(a, c)
  {
    if a[0] == b[0] && b[0] == c[0] {
      BeforeTransitive(a[1..], b[1..], c[1..]);
    }
  }

  lemma {:induction false} BeforeAsymmetric(a: Path, b: Path)
    requires Before(a, b)
    ensures !Before(b, a)
  {
    if a[0] == b[0] {
      BeforeAsymmetric(a[1..], b[1..]);
    }
  }

  /** Two different patterns that match one path are always comparable: what their common tokens
      consume is the same text, so the first difference pits two kinds of token against each other. */
  lemma {:induction false} BeforeTotalOnMatches(a: Path, b: Path, path: string)
    requires Captures(a, path).Some? && Captures(b, path).Some? && a != b
    ensures Before(a, b) || Before(b, a)
  {
    if a != [] && b != [] && a[0] == b[0] {
      match a[0]
      case Lit(c) =>
        BeforeTotalOnMatches(a[1..], b[1..], path[1..]);
      case Param =>
        BeforeTotalOnMatches(a[1..], b[1..], path[SegmentEnd(path, 0)..]);
      case CatchAll =>
    }
  }
}
