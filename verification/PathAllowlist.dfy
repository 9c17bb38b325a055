/** The per-route path allowlist: what it admits, what an upstream makes of it, and what is forwarded. */
module PathAllowlist {
  import opened Options
  import opened Seqs
  import opened Text
  import opened UriPath
  import RouteMatch
  import Utf8

  const PATH_ALLOWLIST_MAX_LENGTH := 500

  // ---------------------------------------------------------------------
  // Patterns.
  // ---------------------------------------------------------------------

  function StripSlashes(p: string): (r: string)
    ensures "/" <= p ==> "/" <= r
  {
    if |p| > 1 && p[|p| - 1] == '/' then StripSlashes(p[..|p| - 1]) else p
  }

  function Normalize(pattern: string): (r: string)
    ensures "/" <= r
  {
    var p := TrimEnd(TrimStart(pattern));
    StripSlashes(if "/" <= p then p else "/" + p)
  }

  method NormalizePathPattern(pattern: string) returns (p: string)
    ensures p == Normalize(pattern)
    ensures "/" <= p && (p == "/" || p[|p| - 1] != '/')
  {
    p := TrimEnd(TrimStart(pattern));
    if !("/" <= p) { p := "/" + p; }
    while |p| > 1 && p[|p| - 1] == '/'
      invariant "/" <= p && StripSlashes(p) == Normalize(pattern)
    {
      p := p[..|p| - 1];
    }
  }

  predicate Slashes(s: string) {
    forall i | 0 <= i < |s| :: s[i] == '/'
  }

  lemma {:induction false} StripSlashesSplits(p: string) returns (slashes: string)
    requires "/" <= p
    ensures p == StripSlashes(p) + slashes && Slashes(slashes)
    ensures StripSlashes(p) == "/" || StripSlashes(p)[|StripSlashes(p)| - 1] != '/'
    decreases |p|
  {
    slashes := "";
    if |p| > 1 && p[|p| - 1] == '/' {
      var rest := StripSlashesSplits(p[..|p| - 1]);
      slashes := rest + "/";
      InitLast(p);
      Associate(StripSlashes(p), rest, "/");
    }
  }

  /**
   * A pattern is normalised to what remains without the whitespace around it and the slashes at its
   * end, with one slash at its head if it had none.
   */
  lemma NormalizedPattern(pattern: string) returns (before: string, core: string, slashes: string, after: string)
    ensures pattern == before + core + after && AllSpace(before) && AllSpace(after) && Slashes(slashes)
    ensures core != "" ==> !IsSpace(core[0]) && !IsSpace(core[|core| - 1])
    ensures Normalize(pattern) + slashes == if "/" <= core then core else "/" + core
    ensures Normalize(pattern) == "/" || Normalize(pattern)[|Normalize(pattern)| - 1] != '/'
  {
    before := TrimStartSplits(pattern);
    after := TrimEndSplits(TrimStart(pattern));
    core := TrimEnd(TrimStart(pattern));
    slashes := StripSlashesSplits(if "/" <= core then core else "/" + core);
    Associate(before, core, after);
  }

  datatype PatternError = TooLong | ForbiddenCharacter | EmptySegment | DotSegment | PartialWildcard

  predicate Forbidden(c: char) {
    IsSpace(c) || c == '?' || c == '#' || c == '\\'
  }

  function Validate(pattern: string): Option<PatternError> {
    var p := Normalize(pattern);
    if Utf8.Units(p) > PATH_ALLOWLIST_MAX_LENGTH then Some(TooLong)
    else if exists i | 0 <= i < |p| :: Forbidden(p[i]) then Some(ForbiddenCharacter)
    else
      var segments := Split(p[1..], '/');
      if p != "/" && "" in segments then Some(EmptySegment)
      else SegmentError(segments)
  }

  function SegmentError(segments: seq<string>): Option<PatternError> {
    if segments == [] then None
    else if IsDot(segments[0]) then Some(DotSegment)
    else if !Free(segments[0], '*') && segments[0] != "*" then Some(PartialWildcard)
    else SegmentError(segments[1..])
  }

  /** A segment a pattern may have: not a dot segment, and a star only on its own. */
  predicate PatternSegment(s: string) {
    !IsDot(s) && (Free(s, '*') || s == "*")
  }

  lemma {:induction false} SegmentErrorIff(segments: seq<string>)
    ensures SegmentError(segments).None? <==> forall s | s in segments :: PatternSegment(s)
    decreases |segments|
  {
    if segments != [] {
      SegmentErrorIff(segments[1..]);
      assert segments[0] in segments && forall s :: s in segments <==> s == segments[0] || s in segments[1..];
    }
  }

  /** The valid patterns: short, without forbidden characters, the root or all segments fit. */
  lemma ValidPatternIff(pattern: string)
    ensures var p := Normalize(pattern);
            Validate(pattern).None? <==>
              && Utf8.Units(p) <= 500
              && (forall c | c in p :: !IsSpace(c) && c !in {'?', '#', '\\'})
              && (p == "/" || forall s | s in Split(p[1..], '/') :: s != "" && PatternSegment(s))
  {
    var p := Normalize(pattern);
    var segments := Split(p[1..], '/');
    SegmentErrorIff(segments);
    assert (exists i | 0 <= i < |p| :: Forbidden(p[i])) <==> exists c | c in p :: Forbidden(c);
    assert forall c | c in p :: Forbidden(c) <==> IsSpace(c) || c in {'?', '#', '\\'};
    if p == "/" { assert p[1..] == "" && segments == [""]; }
  }

  function PatternSegments(pattern: string): seq<string> {
    var p := Normalize(pattern);
    if p == "/" then [] else
    var parts := Split(p[1..], '/');
    seq(|parts|, i requires 0 <= i < |parts| => if Decode(parts[i]).Some? then Decode(parts[i]).value else parts[i])
  }

  /**
   * What a pattern `/part/part/...` asks for: its parts, percent-decoded where they can be. The root
   * asks for no segment.
   */
  lemma PatternAsksFor(parts: seq<string>)
    requires parts != [] && AllFree(parts, '/')
    requires var last := parts[|parts| - 1]; last != "" && !IsSpace(last[|last| - 1])
    ensures |PatternSegments(Separated(parts, '/'))| == |parts| && PatternSegments("/") == []
    ensures forall i | 0 <= i < |parts| ::
              PatternSegments(Separated(parts, '/'))[i]
              == if Decode(parts[i]).Some? then Decode(parts[i]).value else parts[i]
  {
    var p := Separated(parts, '/');
    SeparatedCons(parts, '/');
    SplitAfterFirstSeparator(parts, '/');
    LastOfSeparated(parts, '/');
    NormalAlready(p);
    NormalAlready("/");
  }

  lemma NormalAlready(p: string)
    requires "/" <= p && !IsSpace(p[|p| - 1]) && (p == "/" || p[|p| - 1] != '/')
    ensures Normalize(p) == p
  {
    assert !IsSpace(p[0]);
  }

  lemma {:induction false} LastOfSeparated(parts: seq<string>, sep: char)
    requires parts != [] && parts[|parts| - 1] != ""
    ensures var p, last := Separated(parts, sep), parts[|parts| - 1];
            |p| > 1 && p[|p| - 1] == last[|last| - 1]
    decreases |parts|
  {
    if |parts| == 1 {
      assert parts[1..] == [];
      assert Separated(parts, sep) == [sep] + parts[0];
    } else {
      LastOfSeparated(parts[1..], sep);
    }
  }

  predicate MatchesPattern(segments: seq<string>, pattern: seq<string>) {
    var trailingWildcard := pattern != [] && pattern[|pattern| - 1] == "*";
    var fixed := if trailingWildcard then pattern[..|pattern| - 1] else pattern;
    && (if trailingWildcard then |segments| >= |fixed| else |segments| == |fixed|)
    && forall i | 0 <= i < |fixed| :: fixed[i] == "*" || fixed[i] == segments[i]
  }

  /** What patterns mean: `*` is any one segment, and at the end any number of segments. */
  predicate Glob(segments: seq<string>, pattern: seq<string>) {
    if pattern == [] then segments == []
    else if pattern == ["*"] then true
    else segments != [] && (pattern[0] == "*" || pattern[0] == segments[0]) && Glob(segments[1..], pattern[1..])
  }

  lemma {:induction false} MatchesPatternIsGlob(segments: seq<string>, pattern: seq<string>)
    ensures MatchesPattern(segments, pattern) <==> Glob(segments, pattern)
    decreases |pattern|
  {
    if pattern != [] && pattern != ["*"] {
      if segments != [] {
        MatchesPatternIsGlob(segments[1..], pattern[1..]);
        MatchesPatternTail(segments, pattern);
      } else if |pattern| == 1 {
        assert pattern[0] != "*";
      }
    }
  }

  lemma MatchesPatternTail(segments: seq<string>, pattern: seq<string>)
    requires pattern != [] && pattern != ["*"] && segments != []
    ensures MatchesPattern(segments, pattern) <==>
            (pattern[0] == "*" || pattern[0] == segments[0]) && MatchesPattern(segments[1..], pattern[1..])
  {
    var wild := pattern[|pattern| - 1] == "*";
    var fixed := if wild then pattern[..|pattern| - 1] else pattern;
    assert |pattern| == 1 ==> !wild;
    var rest := pattern[1..];
    var fixedRest := if rest != [] && rest[|rest| - 1] == "*" then rest[..|rest| - 1] else rest;
    assert fixedRest == fixed[1..];
    assert forall i | 0 <= i < |fixedRest| :: fixedRest[i] == fixed[i + 1];
    assert forall i | 0 < i < |fixed| :: fixed[i] == fixedRest[i - 1];
    if MatchesPattern(segments, pattern) {
      forall i | 0 <= i < |fixedRest| ensures fixedRest[i] == "*" || fixedRest[i] == segments[1..][i] {
        assert fixed[i + 1] == "*" || fixed[i + 1] == segments[i + 1];
      }
    }
  }

  // ---------------------------------------------------------------------
  // Requests.
  // ---------------------------------------------------------------------

  /** The decoded form of an acceptable path segment. */
  predicate Acceptable(segment: string) {
    && segment != "" && Decode(segment).Some?
    && var decoded := Decode(segment).value;
       !IsDot(decoded) && Free(decoded, '/') && Free(decoded, '\\')
  }

  /** The segments below the leading slash, not counting a single trailing slash. */
  function RawSegments(subPath: string): seq<string>
    requires "/" <= subPath
  {
    var raw := Split(subPath[1..], '/');
    if raw[|raw| - 1] == "" then raw[..|raw| - 1] else raw
  }

  function Decoded(raw: seq<string>): seq<string>
    requires AllAcceptable(raw)
  {
    seq(|raw|, i requires 0 <= i < |raw| && Acceptable(raw[i]) => Decode(raw[i]).value)
  }

  predicate AllAcceptable(raw: seq<string>) {
    forall i | 0 <= i < |raw| :: Acceptable(raw[i])
  }

  function Segments(subPath: string): Option<seq<string>> {
    if "/" <= subPath && Free(subPath, '\\') && AllAcceptable(RawSegments(subPath))
    then Some(Decoded(RawSegments(subPath))) else None
  }

  lemma OneMoreDecoded(raw: seq<string>, i: nat)
    requires i < |raw| && AllAcceptable(raw[..i]) && Acceptable(raw[i])
    ensures AllAcceptable(raw[..i + 1]) && Decoded(raw[..i + 1]) == Decoded(raw[..i]) + [Decode(raw[i]).value]
  {
    assert forall j | 0 <= j < i :: raw[..i + 1][j] == raw[..i][j];
  }

  method RequestSegments(subPath: string) returns (out: Option<seq<string>>)
    ensures out == Segments(subPath)
  {
    if !("/" <= subPath) { return None; }
    if '\\' in subPath { return None; }
    var raw := Split(subPath[1..], '/');
    if |raw| > 0 && raw[|raw| - 1] == "" { raw := raw[..|raw| - 1]; }
    var found: seq<string> := [];
    for i := 0 to |raw|
      invariant AllAcceptable(raw[..i]) && found == Decoded(raw[..i])
    {
      var seg := raw[i];
      if seg == "" { return None; }
      var decoded := Decode(seg);
      if decoded.None? { return None; }
      if decoded.value == "." || decoded.value == ".." { return None; }
      if '/' in decoded.value || '\\' in decoded.value { return None; }
      found := found + [decoded.value];
      OneMoreDecoded(raw, i);
    }
    assert raw[..|raw|] == raw;
    return Some(found);
  }

  /** An empty allowlist allows everything. */
  predicate IsPathAllowed(subPath: string, allowlist: seq<string>) {
    || allowlist == []
    || (var segments := Segments(if subPath == "" then "/" else subPath);
        segments.Some? && exists i | 0 <= i < |allowlist| :: Admits(allowlist[i], segments.value))
  }

  predicate Admits(entry: string, segments: seq<string>) {
    Validate(entry).None? && MatchesPattern(segments, PatternSegments(entry))
  }

  // ---------------------------------------------------------------------
  // What an upstream sees.
  // ---------------------------------------------------------------------

  /** All parts of an acceptable path, the empty one of a trailing slash included, decode to plain segments. */
  lemma AcceptablePartsDecode(subPath: string)
    requires Segments(subPath).Some?
    ensures var parts := Split(subPath[1..], '/');
            && DecodeAll(parts).Some?
            && AllFree(DecodeAll(parts).value, '/') && NoDots(DecodeAll(parts).value)
            && AllFree(DecodeAll(parts).value, '\\')
            && WithoutTrailingEmpty(DecodeAll(parts).value) == Segments(subPath).value
  {
    var parts := Split(subPath[1..], '/');
    var raw := RawSegments(subPath);
    DecodedNonEmpty(raw);
    if parts[|parts| - 1] == "" {
      DecodeAcceptable(raw, [""]);
      assert raw + [""] == parts;
    } else {
      DecodeAcceptable(raw, []);
      assert raw + [] == parts;
    }
  }

  function WithoutTrailingEmpty(segments: seq<string>): seq<string> {
    if segments != [] && segments[|segments| - 1] == "" then segments[..|segments| - 1] else segments
  }

  /** The plain parts that `raw` decodes to, the empty one of a trailing slash kept. */
  predicate DecodesPlainly(raw: seq<string>, decoded: seq<string>) {
    DecodeAll(raw) == Some(decoded) && AllFree(decoded, '/') && AllFree(decoded, '\\') && NoDots(decoded)
  }

  lemma {:induction false} DecodeAcceptable(raw: seq<string>, tail: seq<string>)
    requires AllAcceptable(raw) && (tail == [] || tail == [""])
    ensures DecodesPlainly(raw + tail, Decoded(raw) + tail)
    decreases |raw|
  {
    if raw == [] {
      assert raw + tail == tail && Decoded(raw) + tail == tail;
      TailDecodes(tail);
    } else {
      var head, rest := raw[0], raw[1..];
      DecodeAcceptable(rest, tail);
      DecodesCons(head, rest + tail, Decode(head).value, Decoded(rest) + tail);
      HeadOfConcat(raw, tail);
      DecodedCons(raw);
      HeadOfConcat(Decoded(raw), tail);
    }
  }

  lemma DecodedCons(raw: seq<string>)
    requires raw != [] && AllAcceptable(raw)
    ensures AllAcceptable(raw[1..]) && Decoded(raw) != []
    ensures Decoded(raw)[0] == Decode(raw[0]).value && Decoded(raw)[1..] == Decoded(raw[1..])
  {
  }

  lemma TailDecodes(tail: seq<string>)
    requires tail == [] || tail == [""]
    ensures DecodesPlainly(tail, tail)
  {
    if tail != [] {
      assert tail[1..] == [] && [""] + [] == tail;
      assert Decode(tail[0]) == Some("") && DecodeAll(tail[1..]) == Some([]);
    }
  }

  lemma DecodesCons(head: string, raw: seq<string>, plain: string, decoded: seq<string>)
    requires DecodesPlainly(raw, decoded) && Decode(head) == Some(plain) && !IsDot(plain)
    requires Free(plain, '/') && Free(plain, '\\')
    ensures DecodesPlainly([head] + raw, [plain] + decoded)
  {
    assert ([head] + raw)[1..] == raw;
  }

  lemma DecodedNonEmpty(raw: seq<string>)
    requires AllAcceptable(raw)
    ensures forall i | 0 <= i < |raw| :: Decoded(raw)[i] != ""
  {
    forall i | 0 <= i < |raw| ensures Decoded(raw)[i] != "" { DecodeNonEmpty(raw[i]); }
  }

  lemma DecodeNonEmpty(s: string)
    requires s != "" && Decode(s).Some?
    ensures Decode(s).value != ""
  {
  }

  /**
   * On a path whose segments are accepted, splitting and percent-decoding commute, dot-segment
   * removal leaves the decoded form unchanged, no backslash is in it, raw or encoded, and its segments
   * are the ones that are judged.
   */
  lemma AcceptedPathIsUnambiguous(subPath: string)
    requires Segments(subPath).Some?
    ensures Decode(subPath).Some?
    ensures var decoded := Decode(subPath).value;
            && DecodeAll(Split(subPath, '/')) == Some(Split(decoded, '/'))
            && RemoveDots(decoded, "") == decoded && Free(decoded, '\\')
            && WithoutTrailingEmpty(Split(decoded, '/')[1..]) == Segments(subPath).value
  {
    var parts := Split(subPath[1..], '/');
    AcceptablePartsDecode(subPath);
    var segments := DecodeAll(parts).value;
    SplitAfterSlash(subPath);
    DecodeSeparated(parts);
    SplitSeparated(segments, '/');
    NothingToRemove(segments, "");
    SeparatedIsFree(segments, '/', '\\');
    assert "" + Separated(segments, '/') == Separated(segments, '/');
    LeadingEmptyDecodes(parts);
    assert ([""] + segments)[1..] == segments;
  }

  lemma {:induction false} SeparatedIsFree(parts: seq<string>, sep: char, c: char)
    requires AllFree(parts, c) && c != sep
    ensures Free(Separated(parts, sep), c)
    decreases |parts|
  {
    if parts != [] {
      SeparatedIsFree(parts[1..], sep, c);
      assert Free(parts[0], c);
    }
  }

  lemma LeadingEmptyDecodes(parts: seq<string>)
    requires DecodeAll(parts).Some?
    ensures DecodeAll([""] + parts) == Some([""] + DecodeAll(parts).value)
  {
    assert ([""] + parts)[1..] == parts;
  }

  /** The segments an upstream resolves a forwarded path to: decoded, dot segments removed, split. */
  function UpstreamSegments(path: string): seq<string>
    requires Decode(path).Some?
  {
    var parts := Split(RemoveDots(Decode(path).value, ""), '/');
    WithoutTrailingEmpty(parts[1..])
  }

  function Rooted(subPath: string): string {
    if subPath == "" then "/" else subPath
  }

  /** A valid entry covers the segments an upstream resolves the path to. */
  predicate Covered(subPath: string, allowlist: seq<string>)
    requires Decode(subPath).Some?
  {
    exists i | 0 <= i < |allowlist| ::
      Validate(allowlist[i]).None? && Glob(UpstreamSegments(subPath), PatternSegments(allowlist[i]))
  }

  lemma JudgedAsResolved(subPath: string)
    requires Segments(Rooted(subPath)).Some?
    ensures Decode(subPath).Some? && UpstreamSegments(subPath) == Segments(Rooted(subPath)).value
  {
    if subPath == "" { EmptyIsRoot(); } else { AcceptedPathIsUnambiguous(subPath); }
  }

  /**
   * A path is allowed exactly when the allowlist is empty, or the path has acceptable segments and an
   * upstream resolves it to segments that a valid entry covers.
   */
  lemma AdmitsExactlyTheCovered(subPath: string, allowlist: seq<string>)
    ensures IsPathAllowed(subPath, allowlist) <==>
            || allowlist == []
            || (Segments(Rooted(subPath)).Some? && Decode(subPath).Some? && Covered(subPath, allowlist))
  {
    if Segments(Rooted(subPath)).Some? {
      JudgedAsResolved(subPath);
      var judged := Segments(Rooted(subPath)).value;
      forall i | 0 <= i < |allowlist|
        ensures Admits(allowlist[i], judged) <==>
                Validate(allowlist[i]).None? && Glob(judged, PatternSegments(allowlist[i]))
      {
        MatchesPatternIsGlob(judged, PatternSegments(allowlist[i]));
      }
    }
  }

  lemma EmptyIsRoot()
    ensures Segments("/") == Some([]) && UpstreamSegments("") == []
  {
    var parts := Split("", '/');
    assert parts == [""] && parts[1..] == [] && parts[..0] == [];
    var root := "/";
    assert root[1..] == "";
    assert RawSegments(root) == [];
    assert Decoded(RawSegments(root)) == [];
    assert Decode("") == Some("") && RemoveDots("", "") == "";
  }

  lemma SplitAfterSlash(s: string)
    requires "/" <= s
    ensures Split(s, '/') == [""] + Split(s[1..], '/')
    ensures Separated(Split(s[1..], '/'), '/') == s
  {
    SeparatedSplit(s[1..], '/');
    assert "/" + s[1..] == s;
  }

  // ---------------------------------------------------------------------
  // What is judged is what is forwarded.
  // ---------------------------------------------------------------------

  function MountBase(publicPath: string): string {
    if RouteMatch.EndsWith(publicPath, "/*") then publicPath[..|publicPath| - 2] else publicPath
  }

  /** What follows `base` in `path`; nothing is the root. */
  function After(base: string, path: string): string
    requires |base| <= |path|
  {
    if path[|base|..] == "" then "/" else path[|base|..]
  }

  /** The part of a request path below a base, cut at a segment boundary only. */
  function SubPathBelow(base: string, requestPath: string): string {
    if base != "/" && (requestPath == base || base + "/" <= requestPath) then After(base, requestPath) else requestPath
  }

  /** The part of a request path after a base, cut wherever the base ends. */
  function SuffixAfter(base: string, proxyPath: string): string {
    if base != "/" && base <= proxyPath then After(base, proxyPath) else proxyPath
  }

  /** The part of a request path below the route's base, as the allowlist judges it. */
  function RouteSubPath(publicPath: string, requestPath: string): string {
    SubPathBelow(MountBase(publicPath), requestPath)
  }

  /** The path appended to the target, before rewrites and stripPrefix. */
  function TargetPath(publicPath: string, proxyPath: string): string {
    SuffixAfter(MountBase(publicPath), proxyPath)
  }

  lemma MountBaseIsBase(publicPath: string)
    requires "/r/" <= publicPath
    ensures MountBase(publicPath) == "/r" + RouteMatch.Base(publicPath)
  {
    assert publicPath == "/r" + publicPath[2..];
    if |publicPath| > 3 {
      RouteMatch.SameEnding(publicPath, 2, "/*");
      if RouteMatch.EndsWith(publicPath, "/*") {
        assert publicPath[..|publicPath| - 2] == "/r" + publicPath[2..|publicPath| - 2];
      }
    } else {
      assert publicPath[1..][0] == 'r';
    }
  }

  /**
   * On every request a route matches, the path judged is the path forwarded, except below a route
   * mounted at exactly "/r/", where the two differ unless the request is "/" or starts with "//".
   */
  lemma JudgedIsForwardedIff(publicPath: string, path: string)
    requires "/r/" <= publicPath && "/" <= path && RouteMatch.Matches(publicPath, path)
    ensures RouteSubPath(publicPath, "/r" + path) == TargetPath(publicPath, "/r" + path) <==>
            !(MountBase(publicPath) == "/r/" && path != "/" && path[1] != '/')
  {
    var base := RouteMatch.Base(publicPath);
    MountBaseIsBase(publicPath);
    MountIsRootIff(base);
    if base == "/" { RootMount(path); } else { SegmentMount(base, path); }
  }

  lemma MountIsRootIff(base: string)
    ensures "/r" + base == "/r/" <==> base == "/"
  {
    assert ("/r" + base)[2..] == base;
  }

  lemma SegmentMount(base: string, path: string)
    requires "/" <= path && (base == "" || path == base || base + "/" <= path)
    ensures SubPathBelow("/r" + base, "/r" + path) == SuffixAfter("/r" + base, "/r" + path)
  {
    var full, mount := "/r" + path, "/r" + base;
    if path != base {
      assert base + "/" <= path;
      assert full[..|mount| + 1] == "/r" + path[..|base| + 1] == "/r" + (base + "/") == mount + "/";
    }
    assert mount <= full;
  }

  lemma RootMount(path: string)
    requires "/" <= path
    ensures SubPathBelow("/r/", "/r" + path) == SuffixAfter("/r/", "/r" + path) <==> path == "/" || path[1] == '/'
  {
    var full := "/r" + path;
    assert full[3..] == path[1..] && full[..3] == "/r/";
    if path != "/" {
      assert full[3] == path[1];
      if path[1] == '/' { assert full[..4] == "/r/" + "/"; } else { assert ("/r/" + "/")[3] == '/'; }
    } else {
      assert full == "/r/";
    }
  }

  /** A request of the mount itself is judged and forwarded as the root, one below it as what follows. */
  lemma BelowTheMount(publicPath: string, rest: string)
    requires MountBase(publicPath) != "/"
    ensures RouteSubPath(publicPath, MountBase(publicPath)) == "/"
    ensures TargetPath(publicPath, MountBase(publicPath)) == "/"
    ensures RouteSubPath(publicPath, MountBase(publicPath) + ("/" + rest)) == "/" + rest
    ensures TargetPath(publicPath, MountBase(publicPath) + ("/" + rest)) == "/" + rest
  {
    var base := MountBase(publicPath);
    var path := base + ("/" + rest);
    assert path[|base|..] == "/" + rest;
    assert path[..|base| + 1] == base + "/";
  }

  /** With the exception a request shows it. */
  lemma RootMountDiffers()
    ensures RouteSubPath("/r/", "/r/foo") == "/r/foo" && TargetPath("/r/", "/r/foo") == "foo"
  {
    assert !RouteMatch.EndsWith("/r/", "/*");
    var request, slashed := "/r/foo", "/r/" + "/";
    assert request[3..] == "foo" && request[3] == 'f' && slashed[3] == '/';
  }
}
