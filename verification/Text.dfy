/** The searches of std::string_view that the routing code relies on. `None` plays the part of npos. */
module Text {
  import opened HttpTypes

  predicate IsMarker(c: char) { c == ':' || c == '*' }

  ghost predicate MarkerFree(s: string) { forall i | 0 <= i < |s| :: !IsMarker(s[i]) }

  // find(c, from)
  function Find(s: string, c: char, from: nat): (r: Option<nat>)
    requires from <= |s|
    ensures r.None? ==> forall i | from <= i < |s| :: s[i] != c
    ensures r.Some? ==> from <= r.value < |s| && s[r.value] == c && forall i | from <= i < r.value :: s[i] != c
    decreases |s| - from
  {
    if from == |s| then None else if s[from] == c then Some(from) else Find(s, c, from + 1)
  }

  // find_first_of(":*", from)
  function FindMarker(s: string, from: nat): (r: Option<nat>)
    requires from <= |s|
    ensures r.None? ==> forall i | from <= i < |s| :: !IsMarker(s[i])
    ensures r.Some? ==> from <= r.value < |s| && IsMarker(s[r.value]) && forall i | from <= i < r.value :: !IsMarker(s[i])
    decreases |s| - from
  {
    if from == |s| then None else if IsMarker(s[from]) then Some(from) else FindMarker(s, from + 1)
  }

  // Where the segment holding position `from` ends: the next '/', or the end of the text.
  function SegmentEnd(s: string, from: nat): (e: nat)
    requires from <= |s|
    ensures from <= e <= |s|
    ensures forall i | from <= i < e :: s[i] != '/'
    ensures e < |s| ==> s[e] == '/'
  {
    match Find(s, '/', from)
    case None => |s|
    case Some(i) => i
  }

  lemma SegmentEndFrom(s: string, from: nat)
    requires from <= |s|
    ensures SegmentEnd(s, from) == from + SegmentEnd(s[from..], 0)
    ensures s[from..SegmentEnd(s, from)] == s[from..][..SegmentEnd(s[from..], 0)]
    ensures s[SegmentEnd(s, from)..] == s[from..][SegmentEnd(s[from..], 0)..]
  {
    var t := s[from..];
    var e := SegmentEnd(t, 0);
    assert forall i | from <= i < |s| :: s[i] == t[i - from];
    assert e < |t| ==> s[from + e] == t[e];
    assert SegmentEnd(s, from) == from + e;
  }

  // Text before the first '?'.
  function StripQuery(target: string): (path: string)
    ensures path <= target && '?' !in path
    ensures path == target || target[|path|] == '?'
  {
    match Find(target, '?', 0)
    case None => target
    case Some(i) => target[..i]
  }

  /** A target is its path, alone or followed by "?query"; nothing else strips to that path. */
  lemma StripQueryInverts(path: string, query: string)
    requires '?' !in path
    ensures StripQuery(path) == path
    ensures StripQuery(path + "?" + query) == path
  {
    var target := path + "?" + query;
    assert target[|path|] == '?';
    assert forall i | 0 <= i < |path| :: target[i] == path[i];
    assert StripQuery(target) == path;
  }
}
