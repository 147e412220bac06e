/** MIME lookup: the backward scan over a case-insensitive hash table, and the older form it must agree with. */
module MimeTypes {
  import opened HttpTypes

  const DEFAULT_MIME_TYPE := "application/octet-stream"

  const MIME_TYPES: map<string, string> := map[
    ".htm" := "text/html",
    ".html" := "text/html",
    ".php" := "text/html",
    ".css" := "text/css",
    ".txt" := "text/plain",
    ".js" := "application/javascript",
    ".json" := "application/json",
    ".png" := "image/png",
    ".jpe" := "image/jpeg",
    ".jpeg" := "image/jpeg",
    ".jpg" := "image/jpeg",
    ".gif" := "image/gif",
    ".bmp" := "image/bmp",
    ".ico" := "image/vnd.microsoft.icon",
    ".svg" := "image/svg+xml",
    ".svgz" := "image/svg+xml"
  ]

  // The older lookup has a table of its own.
  const SERVER_MIME_TYPES: map<string, string> := map[
    ".htm" := "text/html",
    ".html" := "text/html",
    ".php" := "text/html",
    ".css" := "text/css",
    ".txt" := "text/plain",
    ".js" := "application/javascript",
    ".json" := "application/json",
    ".png" := "image/png",
    ".jpe" := "image/jpeg",
    ".jpeg" := "image/jpeg",
    ".jpg" := "image/jpeg",
    ".gif" := "image/gif",
    ".bmp" := "image/bmp",
    ".ico" := "image/vnd.microsoft.icon",
    ".svg" := "image/svg+xml",
    ".svgz" := "image/svg+xml"
  ]

  /** The two tables hold the same entries. */
  lemma TablesAgree()
    ensures SERVER_MIME_TYPES == MIME_TYPES
  {
  }

  // ----- what "but for case" means -----

  const CAPITALS := "ABCDEFGHIJKLMNOPQRSTUVWXYZ"
  const SMALLS := "abcdefghijklmnopqrstuvwxyz"

  // The capital and the small form of one letter.
  predicate LetterPair(c: char, d: char)
  {
    exists k :: 0 <= k < |CAPITALS| && k < |SMALLS| && CAPITALS[k] == c && SMALLS[k] == d
  }

  predicate SameLetter(c: char, d: char) { c == d || LetterPair(c, d) || LetterPair(d, c) }

  predicate SameButCase(a: string, b: string)
  {
    |a| == |b| && forall i | 0 <= i < |a| :: SameLetter(a[i], b[i])
  }

  // ----- case folding, hashing and equality -----

  function AsciiLower(c: char): char
  {
    if 'A' <= c <= 'Z' then (c as int + ('a' as int - 'A' as int)) as char else c
  }

  lemma LetterAt(k: nat)
    requires k < 26
    ensures CAPITALS[k] as int == 'A' as int + k && SMALLS[k] as int == 'a' as int + k
  {
  }

  lemma LetterPairIs(c: char, d: char)
    ensures LetterPair(c, d) <==> 'A' <= c <= 'Z' && d as int == c as int + 32
  {
    if LetterPair(c, d) {
      var k :| 0 <= k < |CAPITALS| && k < |SMALLS| && CAPITALS[k] == c && SMALLS[k] == d;
      LetterAt(k);
    }
    if 'A' <= c <= 'Z' && d as int == c as int + 32 {
      var k := c as int - 'A' as int;
      LetterAt(k);
      assert CAPITALS[k] == c && SMALLS[k] == d;
    }
  }

  lemma FoldIffSameLetter(c: char, d: char)
    ensures AsciiLower(c) == AsciiLower(d) <==> SameLetter(c, d)
  {
    LetterPairIs(c, d);
    LetterPairIs(d, c);
  }

  /** Folding tells exactly the texts apart that differ in more than the case of letters A to Z. */
  lemma FoldIffSameButCase(a: string, b: string)
    ensures Lower(a) == Lower(b) <==> SameButCase(a, b)
  {
    forall i | 0 <= i < |a| && i < |b| ensures Lower(a)[i] == Lower(b)[i] <==> SameLetter(a[i], b[i]) {
      FoldIffSameLetter(a[i], b[i]);
    }
    assert |Lower(a)| == |a| && |Lower(b)| == |b|;
    if SameButCase(a, b) {
      assert forall i | 0 <= i < |a| :: Lower(a)[i] == Lower(b)[i];
    }
    if Lower(a) == Lower(b) {
      assert forall i | 0 <= i < |a| :: SameLetter(a[i], b[i]);
    }
  }

  function Lower(s: string): (t: string)
    ensures |t| == |s| && forall i | 0 <= i < |s| :: t[i] == AsciiLower(s[i])
  {
    seq(|s|, i requires 0 <= i < |s| => AsciiLower(s[i]))
  }

  const SIZE_RANGE: nat := 0x1_0000_0000_0000_0000

  // The hash after `text`, in 64-bit arithmetic that wraps around.
  function HashOf(text: string): nat
  {
    if text == "" then 0
    else (HashOf(text[..|text| - 1]) * 131 + AsciiLower(text[|text| - 1]) as int) % SIZE_RANGE
  }

  method ExtensionHash(text: string) returns (hash: nat)
    ensures hash == HashOf(text)
  {
    hash := 0;
    for i := 0 to |text|
      invariant hash == HashOf(text[..i])
    {
      assert text[..i + 1][..i] == text[..i];
      hash := (hash * 131 + AsciiLower(text[i]) as int) % SIZE_RANGE;
    }
    assert text[..|text|] == text;
  }

  method ExtensionEqual(lhs: string, rhs: string) returns (equal: bool)
    ensures equal <==> SameButCase(lhs, rhs)
  {
    FoldIffSameButCase(lhs, rhs);
    if |lhs| != |rhs| {
      return false;
    }
    for i := 0 to |lhs|
      invariant forall j | 0 <= j < i :: AsciiLower(lhs[j]) == AsciiLower(rhs[j])
    {
      if AsciiLower(lhs[i]) != AsciiLower(rhs[i]) {
        assert Lower(lhs)[i] != Lower(rhs)[i];
        return false;
      }
    }
    return true;
  }

  lemma {:induction false} FoldedEqualHashes(lhs: string, rhs: string)
    requires Lower(lhs) == Lower(rhs)
    ensures HashOf(lhs) == HashOf(rhs)
  {
    if lhs != "" {
      var n := |lhs| - 1;
      assert Lower(lhs)[n] == Lower(rhs)[n];
      assert Lower(lhs[..n]) == Lower(lhs)[..n] == Lower(rhs)[..n] == Lower(rhs[..n]);
      FoldedEqualHashes(lhs[..n], rhs[..n]);
    }
  }

  /** The hash table's contract: keys that compare equal have equal hashes, whatever their length. */
  lemma EqualKeysEqualHashes(lhs: string, rhs: string)
    requires SameButCase(lhs, rhs)
    ensures HashOf(lhs) == HashOf(rhs)
  {
    FoldIffSameButCase(lhs, rhs);
    FoldedEqualHashes(lhs, rhs);
  }

  // ----- what the hash is: a polynomial in 131, cut to 64 bits -----

  function Power(k: nat): nat
  {
    if k == 0 then 1 else 131 * Power(k - 1)
  }

  // The first character weighs most; nothing wraps around.
  function Weight(text: string): nat
  {
    if text == "" then 0 else AsciiLower(text[0]) as int * Power(|text| - 1) + Weight(text[1..])
  }

  lemma {:induction false} WeightSnoc(text: string, c: char)
    ensures Weight(text + [c]) == Weight(text) * 131 + AsciiLower(c) as int
  {
    var all := text + [c];
    if text == "" {
      assert all[1..] == "" && Weight("") == 0 && Power(0) == 1;
    } else {
      var a, p := AsciiLower(text[0]) as int, Power(|text| - 1);
      assert all[1..] == text[1..] + [c];
      WeightSnoc(text[1..], c);
      assert Power(|text|) == 131 * p;
      assert a * (131 * p) == (a * p) * 131;
    }
  }

  lemma Multiple(d: int, m: nat)
    ensures d > 0 ==> d * m >= m
    ensures d < 0 ==> d * m <= -(m as int)
  {
  }

  lemma RemainderIs(n: nat, m: nat, q: nat, r: nat)
    requires r < m && n == q * m + r
    ensures n % m == r
  {
    var d := n / m - q;
    assert n == (n / m) * m + n % m;
    assert d * m == (n / m) * m - q * m == r - n % m;
    Multiple(d, m);
  }

  lemma Regroup(k: nat, q: nat, m: nat, r: nat, t: nat, c: nat)
    requires t * 131 + c == q * m + r
    ensures (k * m + t) * 131 + c == (k * 131 + q) * m + r
  {
    assert (k * m) * 131 == (k * 131) * m;
    assert (k * 131 + q) * m == (k * 131) * m + q * m;
  }

  lemma WrapStep(a: nat, c: nat, m: nat)
    requires m > 0
    ensures ((a % m) * 131 + c) % m == (a * 131 + c) % m
  {
    var k, t := a / m, a % m;
    var n := t * 131 + c;
    var q, r := n / m, n % m;
    Regroup(k, q, m, r, t, c);
    RemainderIs(a * 131 + c, m, k * 131 + q, r);
  }

  /** Wrapping around at every character loses nothing: the hash is the text's weight, cut once to 64 bits. */
  lemma {:induction false} HashIsPolynomial(text: string)
    ensures HashOf(text) == Weight(text) % SIZE_RANGE
  {
    if text != "" {
      var n := |text| - 1;
      HashIsPolynomial(text[..n]);
      WeightSnoc(text[..n], text[n]);
      assert text[..n] + [text[n]] == text;
      WrapStep(Weight(text[..n]), AsciiLower(text[n]) as int, SIZE_RANGE);
    }
  }

  // ----- the table -----

  function TypeOf(ext: string): Option<string>
  {
    if ext in MIME_TYPES then Some(MIME_TYPES[ext]) else None
  }

  // Every key is its own folding, has its one dot in front, and no '/'.
  lemma KeyShape(key: string)
    requires key in MIME_TYPES
    ensures key != "" && key[0] == '.' && Lower(key) == key
    ensures forall i | 1 <= i < |key| :: key[i] != '.' && key[i] != '/'
    ensures MIME_TYPES[key] != DEFAULT_MIME_TYPE
  {
  }

  /** The table's find: it compares only keys in the bucket of the hash, in any order, and loses nothing by that. */
  method FindType(ext: string) returns (r: Option<string>)
    ensures r == TypeOf(Lower(ext))
  {
    var hash := ExtensionHash(ext);
    var keys := MIME_TYPES.Keys;
    while keys != {}
      invariant keys <= MIME_TYPES.Keys
      invariant Lower(ext) in MIME_TYPES ==> Lower(ext) in keys
    {
      var key :| key in keys;
      KeyShape(key);
      FoldIffSameButCase(key, ext);
      var keyHash := ExtensionHash(key);
      if keyHash == hash {
        var equal := ExtensionEqual(key, ext);
        if equal {
          return Some(MIME_TYPES[key]);
        }
      }
      if key == Lower(ext) {
        EqualKeysEqualHashes(key, ext);
      }
      keys := keys - {key};
    }
    return None;
  }

  // ----- the scan -----

  // rfind(c)
  function FindLast(s: string, c: char): (r: Option<nat>)
    ensures r.None? ==> c !in s
    ensures r.Some? ==> r.value < |s| && s[r.value] == c && forall i | r.value < i < |s| :: s[i] != c
  {
    if s == "" then None
    else if s[|s| - 1] == c then Some(|s| - 1)
    else FindLast(s[..|s| - 1], c)
  }

  function OrDefault(t: Option<string>): string
  {
    match t
    case None => DEFAULT_MIME_TYPE
    case Some(name) => name
  }

  // The text from the last dot, if that dot is in the last segment.
  function ExtensionOf(path: string): Option<string>
  {
    match FindLast(path, '.')
    case None => None
    case Some(i) => if '/' in path[i..] then None else Some(path[i..])
  }

  // The type of a path: its extension folded and looked up.
  function PathType(path: string): string
  {
    match ExtensionOf(path)
    case None => DEFAULT_MIME_TYPE
    case Some(ext) => OrDefault(TypeOf(Lower(ext)))
  }

  function ServerTypeOf(ext: string): Option<string>
  {
    if ext in SERVER_MIME_TYPES then Some(SERVER_MIME_TYPES[ext]) else None
  }

  // HttpServer's older, case-sensitive lookup.
  function MimeType(path: string): string
  {
    match FindLast(path, '.')
    case None => DEFAULT_MIME_TYPE
    case Some(i) => OrDefault(ServerTypeOf(path[i..]))
  }

  lemma TwoDotsUnknown(path: string, i: nat, j: nat)
    requires i < j < |path| && (path[j] == '.' || path[j] == '/')
    ensures TypeOf(Lower(path[i..])) == None
  {
    var ext := Lower(path[i..]);
    assert ext[j - i] == path[j];
    if ext in MIME_TYPES {
      KeyShape(ext);
    }
  }

  lemma LastDotIs(path: string, i: nat)
    requires i < |path| && path[i] == '.' && forall j | i < j < |path| :: path[j] != '.'
    ensures FindLast(path, '.') == Some(i)
  {
    assert '.' in path;
  }

  predicate EndsWith(path: string, key: string)
  {
    |key| <= |path| && path[|path| - |key|..] == key
  }

  predicate EndsWithAnyCase(path: string, key: string)
  {
    |key| <= |path| && SameButCase(path[|path| - |key|..], key)
  }

  // The type of a path by how it ends, letter case aside: the type of the key it ends with, or the default if with none.
  ghost predicate TypedByEnding(path: string, r: string)
  {
    && (forall key | key in MIME_TYPES && EndsWithAnyCase(path, key) :: r == MIME_TYPES[key])
    && ((forall key | key in MIME_TYPES :: !EndsWithAnyCase(path, key)) ==> r == DEFAULT_MIME_TYPE)
  }

  // The same, letter for letter.
  ghost predicate TypedByExactEnding(path: string, r: string)
  {
    && (forall key | key in SERVER_MIME_TYPES && EndsWith(path, key) :: r == SERVER_MIME_TYPES[key])
    && ((forall key | key in SERVER_MIME_TYPES :: !EndsWith(path, key)) ==> r == DEFAULT_MIME_TYPE)
  }

  /** The scan stops at the last '/', and going on past an unknown extension never finds anything. */
  method FromPath(path: string) returns (r: string)
    ensures r == PathType(path)
  {
    var i := |path|;
    while i != 0
      invariant 0 <= i <= |path|
      invariant forall j | i <= j < |path| :: path[j] != '/'
      invariant forall j {:trigger path[j]} | i <= j < |path| && path[j] == '.' :: TypeOf(Lower(path[j..])) == None
    {
      i := i - 1;
      var c := path[i];
      if c == '/' {
        SlashAt(path, i);
        return DEFAULT_MIME_TYPE;
      }
      if c == '.' {
        var found := FindType(path[i..]);
        if found.Some? {
          DotAt(path, i);
          return found.value;
        }
      }
    }
    NothingAt(path);
    return DEFAULT_MIME_TYPE;
  }

  lemma SlashAt(path: string, i: nat)
    requires i < |path| && path[i] == '/'
    requires forall j {:trigger path[j]} | i < j < |path| && path[j] == '.' :: TypeOf(Lower(path[j..])) == None
    ensures PathType(path) == DEFAULT_MIME_TYPE
  {
    var dot := FindLast(path, '.');
    if dot.Some? && dot.value < i {
      assert path[dot.value..][i - dot.value] == '/';
    }
  }

  lemma DotAt(path: string, i: nat)
    requires i < |path| && path[i] == '.' && TypeOf(Lower(path[i..])).Some?
    ensures PathType(path) == OrDefault(TypeOf(Lower(path[i..])))
  {
    forall j | i < j < |path| ensures path[j] != '.' && path[j] != '/' {
      if path[j] == '.' || path[j] == '/' {
        TwoDotsUnknown(path, i, j);
      }
    }
    LastDotIs(path, i);
    assert forall k | 0 <= k < |path[i..]| :: path[i..][k] == path[i + k];
  }

  lemma NothingAt(path: string)
    requires forall j {:trigger path[j]} | 0 <= j < |path| && path[j] == '.' :: TypeOf(Lower(path[j..])) == None
    ensures PathType(path) == DEFAULT_MIME_TYPE
  {
  }

  // ----- the two lookups agree -----

  lemma FoldKeepsLastDot(path: string)
    ensures FindLast(Lower(path), '.') == FindLast(path, '.')
  {
    var low := Lower(path);
    assert forall i | 0 <= i < |path| :: low[i] == '.' <==> path[i] == '.';
    match FindLast(path, '.')
    case None =>
    case Some(i) =>
      LastDotIs(low, i);
  }

  lemma SlashIsUnknown(path: string, i: nat)
    requires i < |path| && path[i] == '.' && '/' in path[i..]
    ensures TypeOf(Lower(path[i..])) == None
  {
    var k :| 0 <= k < |path[i..]| && path[i..][k] == '/';
    assert path[i + k] == '/';
    TwoDotsUnknown(path, i, i + k);
  }

  lemma LowerFrom(path: string, i: nat)
    requires i <= |path|
    ensures Lower(path)[i..] == Lower(path[i..])
  {
  }

  /** For every path, the scan is the older lookup applied to the folded path. */
  lemma PathTypeIsFoldedMimeType(path: string)
    ensures PathType(path) == MimeType(Lower(path))
  {
    TablesAgree();
    FoldKeepsLastDot(path);
    var dot := FindLast(path, '.');
    if dot.Some? {
      LowerFrom(path, dot.value);
      if '/' in path[dot.value..] {
        SlashIsUnknown(path, dot.value);
      }
    }
  }

  /** The scan ignores case, and keeps every type the older lookup knows. */
  lemma FoldedLookupExtends(path: string)
    ensures PathType(Lower(path)) == PathType(path)
    ensures MimeType(path) != DEFAULT_MIME_TYPE ==> PathType(path) == MimeType(path)
  {
    TablesAgree();
    PathTypeIsFoldedMimeType(path);
    PathTypeIsFoldedMimeType(Lower(path));
    assert Lower(Lower(path)) == Lower(path);
    FoldKeepsLastDot(path);
    var dot := FindLast(path, '.');
    if dot.Some? && path[dot.value..] in SERVER_MIME_TYPES {
      KeyShape(path[dot.value..]);
      assert Lower(path)[dot.value..] == Lower(path[dot.value..]);
    }
  }

  /** Paths that differ in letter case only have the same type. */
  lemma CaseIsIgnored(p: string, q: string)
    requires SameButCase(p, q)
    ensures PathType(p) == PathType(q)
  {
    FoldIffSameButCase(p, q);
    PathTypeIsFoldedMimeType(p);
    PathTypeIsFoldedMimeType(q);
  }

  // ----- types by ending -----

  lemma KeyEnds(path: string, key: string)
    requires key in SERVER_MIME_TYPES && EndsWith(path, key)
    ensures FindLast(path, '.') == Some(|path| - |key|)
  {
    TablesAgree();
    KeyShape(key);
    var i := |path| - |key|;
    assert forall j | i <= j < |path| :: path[j] == key[j - i];
    LastDotIs(path, i);
  }

  /** The older lookup gives the type of the key that the path ends with letter for letter, and the default if there is none. */
  lemma MimeTypeByEnding(path: string)
    ensures TypedByExactEnding(path, MimeType(path))
  {
    forall key | key in SERVER_MIME_TYPES && EndsWith(path, key) ensures MimeType(path) == SERVER_MIME_TYPES[key] {
      KeyEnds(path, key);
    }
    var dot := FindLast(path, '.');
    if dot.Some? {
      var key := path[dot.value..];
      assert key in SERVER_MIME_TYPES ==> EndsWith(path, key);
    }
  }

  lemma EndingFolds(path: string, key: string)
    requires key in MIME_TYPES
    ensures EndsWithAnyCase(path, key) <==> EndsWith(Lower(path), key)
  {
    KeyShape(key);
    if |key| <= |path| {
      var i := |path| - |key|;
      FoldIffSameButCase(path[i..], key);
      assert Lower(path)[i..] == Lower(path[i..]);
    }
  }

  /** The scan gives the type of the key that the path ends with, letter case aside, and the default if there is none. */
  lemma PathTypeByEnding(path: string)
    ensures TypedByEnding(path, PathType(path))
  {
    TablesAgree();
    PathTypeIsFoldedMimeType(path);
    MimeTypeByEnding(Lower(path));
    forall key | key in MIME_TYPES ensures EndsWithAnyCase(path, key) <==> EndsWith(Lower(path), key) {
      EndingFolds(path, key);
    }
  }

  /** The two lookups do differ: ".PNG" is an image for the scan and unknown to the older lookup. */
  lemma CapitalsTellThemApart(path: string)
    requires EndsWith(path, ".PNG")
    ensures PathType(path) == "image/png" && MimeType(path) == DEFAULT_MIME_TYPE
  {
    var i := |path| - 4;
    assert forall j | i <= j < |path| :: path[j] == ".PNG"[j - i];
    LastDotIs(path, i);
    assert path[i..] == ".PNG" && '/' !in ".PNG";
    assert Lower(".PNG") == ".png";
  }
}
