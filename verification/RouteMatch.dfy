/** Which route a request goes to: the first match in descending order of public path. */
module RouteMatch {
  import opened Options
  import Text

  predicate EndsWith(s: string, t: string) {
    |t| <= |s| && s[|s| - |t|..] == t
  }

  /** The public path as it is compared: without the /r mount and without a trailing wildcard. */
  function Base(publicPath: string): string {
    var unmounted :=
      if "/r/" <= publicPath then publicPath[2..]
      else if "/r" <= publicPath then (if publicPath[2..] == "" then "/" else publicPath[2..])
      else publicPath;
    if EndsWith(unmounted, "/*") then unmounted[..|unmounted| - 2] else unmounted
  }

  predicate Matches(publicPath: string, path: string) {
    BaseMatches(Base(publicPath), path)
  }

  predicate BaseMatches(base: string, path: string) {
    base == "/" || base == "" || path == base || base + "/" <= path
  }

  lemma PlainBase(name: string)
    requires name != "" && name != "/" && !EndsWith(name, "/*")
    ensures Base("/r" + name) == name
  {
    assert ("/r" + name)[2..] == name;
  }

  lemma WildcardBase(name: string)
    requires name != ""
    ensures Base("/r" + (name + "/*")) == name
  {
    var wild := name + "/*";
    assert ("/r" + wild)[2..] == wild;
    assert wild[|name|..] == "/*" && wild[..|name|] == name;
  }

  /** The mount itself takes everything. */
  lemma MountTakesAll(path: string)
    ensures Matches("/r/", path) && Matches("/r", path) && Matches("/r/*", path)
  {
    var mount, root, all := "/r", "/r/", "/r/*";
    assert mount[2..] == "" && root[2..] == "/" && all[2..] == "/*";
    var star := "/*";
    assert star[0..] == star && star[..0] == "" && EndsWith(star, "/*");
  }

  /**
   * What a route takes: mounted under /r, with or without a wildcard, the request of its own name and
   * those with whole segments below it.
   */
  lemma RouteTakes(name: string, path: string)
    requires name != "" && name != "/" && !EndsWith(name, "/*")
    ensures Matches("/r" + name, path) <==> path == name || name + "/" <= path
    ensures Matches("/r" + (name + "/*"), path) <==> path == name || name + "/" <= path
  {
    PlainBase(name);
    WildcardBase(name);
  }

  /** A route outside the mount takes the requests of its own name. */
  lemma UnmountedRouteTakes(name: string, path: string)
    requires name != "" && name != "/" && !("/r" <= name) && !EndsWith(name, "/*")
    ensures Matches(name, path) <==> path == name || name + "/" <= path
  {
  }

  /** `routes.find(...)`: the index of the first match. */
  function FirstMatch(routes: seq<string>, path: string): (found: Option<nat>)
    ensures found.Some? ==> found.value < |routes| && Matches(routes[found.value], path)
    ensures forall i | 0 <= i < |routes| && (found.None? || i < found.value) :: !Matches(routes[i], path)
  {
    FindFrom(routes, route => Matches(route, path), 0)
  }

  // ---------------------------------------------------------------------
  // The order the routes come in.
  // ---------------------------------------------------------------------

  /** Code-point order. */
  predicate Below(a: string, b: string) {
    b != "" && (a == "" || a[0] < b[0] || (a[0] == b[0] && Below(a[1..], b[1..])))
  }

  predicate Descending(routes: seq<string>) {
    forall i, j | 0 <= i < j < |routes| :: !Below(routes[i], routes[j])
  }

  lemma {:induction false} BelowAfter(p: string, a: string, b: string)
    ensures Below(p + a, p + b) == Below(a, b)
    decreases |p|
  {
    if p == "" {
      assert p + a == a && p + b == b;
    } else {
      BelowAfter(p[1..], a, b);
      assert (p + a)[1..] == p[1..] + a && (p + b)[1..] == p[1..] + b;
    }
  }

  // ---------------------------------------------------------------------
  // Longest match.
  // ---------------------------------------------------------------------

  /** Mounted under /r/, which the route form demands. */
  predicate AllMounted(routes: seq<string>) {
    forall i | 0 <= i < |routes| :: "/r/" <= routes[i]
  }

  /** Route `i` matches, and no matching route has a longer base. */
  predicate IsLongestMatch(routes: seq<string>, path: string, i: nat) {
    && i < |routes| && Matches(routes[i], path)
    && forall j | 0 <= j < |routes| && Matches(routes[j], path) :: |Base(routes[j])| <= |Base(routes[i])|
  }

  ghost predicate FirstIsLongest(routes: seq<string>) {
    forall path :: FirstMatch(routes, path).Some? ==> IsLongestMatch(routes, path, FirstMatch(routes, path).value)
  }

  /** `hidden` lies below the base of `wildcard`, its next segment starting below '*'. */
  predicate HidesSegment(wildcard: string, hidden: string) {
    && EndsWith(wildcard, "/*")
    && var prefix := wildcard[..|wildcard| - 1];
       prefix < hidden && hidden[|prefix|] < '*'
  }

  /** `hidden` is the base of `wildcard` with a trailing slash. */
  predicate HidesSlash(wildcard: string, hidden: string) {
    EndsWith(wildcard, "/*") && hidden == wildcard[..|wildcard| - 1]
  }

  // "/r//*" matches everything, as "/r/*" does, and hides the first segments that start below '/'.
  predicate HidesRoot(wildcard: string, hidden: string) {
    wildcard == "/r//*" && "/r/" < hidden && hidden[3] < '/' && hidden != "/r/*"
  }

  /** The wildcard route takes requests that belong to `hidden`. */
  predicate Shadows(routes: seq<string>, wildcard: string, hidden: string) {
    || HidesSegment(wildcard, hidden)
    || HidesRoot(wildcard, hidden)
    || (HidesSlash(wildcard, hidden) && hidden + "/*" !in routes)
  }

  predicate NoShadowing(routes: seq<string>) {
    forall i, j | 0 <= i < |routes| && 0 <= j < |routes| :: !Shadows(routes, routes[i], routes[j])
  }

  // ----- Bases -----

  predicate RootedBase(base: string) {
    base == "" || base[0] == '/'
  }

  /** `p` is `base` under the mount, spelt with or without the wildcard. */
  predicate Spells(p: string, base: string) {
    RootedBase(base) && p == "/r" + base + if EndsWith(p, "/*") then "/*" else ""
  }

  lemma SameEnding(p: string, k: nat, ending: string)
    requires k + |ending| <= |p|
    ensures EndsWith(p[k..], ending) == EndsWith(p, ending)
  {
    assert p[k..][|p| - k - |ending|..] == p[|p| - |ending|..];
  }

  lemma WildcardSpelling(p: string)
    requires "/r/" <= p && EndsWith(p, "/*")
    ensures Spells(p, Base(p))
  {
    var n := |p| - 2;
    assert n >= 2 by { assert p[n..][0] == '/'; }
    SameEnding(p, 2, "/*");
    assert Base(p) == p[2..n];
    assert p == p[..2] + p[2..n] + p[n..];
  }

  lemma PlainSpelling(p: string)
    requires "/r/" <= p && !EndsWith(p, "/*")
    ensures Spells(p, Base(p))
  {
    if |p| > 3 { SameEnding(p, 2, "/*"); }
    assert Base(p) == p[2..];
    assert p == p[..2] + p[2..] + "";
  }

  /** The two spellings of a route with a given base. */
  lemma Spellings(p: string)
    requires "/r/" <= p
    ensures Spells(p, Base(p))
  {
    if EndsWith(p, "/*") { WildcardSpelling(p); } else { PlainSpelling(p); }
  }

  /** Of two bases that match a path, the longer one continues the shorter, unless that is the root. */
  lemma LongerContinues(short: string, long: string, path: string)
    requires RootedBase(short) && RootedBase(long) && BaseMatches(short, path) && BaseMatches(long, path)
    requires |short| < |long|
    ensures short == "/" || short + "/" <= long
  {
    if short != "" && short != "/" {
      BaseIsPrefix(short, path);
      BaseIsPrefix(long, path);
      assert path[|short|] == '/' && long[..|short|] == short;
      assert long[..|short| + 1] == short + "/";
    }
  }

  lemma BaseIsPrefix(base: string, path: string)
    requires BaseMatches(base, path) && base != "/" && base != ""
    ensures base <= path && (|base| < |path| ==> path[|base|] == '/')
  {
    if base + "/" <= path { assert path[|base|] == (base + "/")[|base|]; }
  }

  /** A base that matches another base, and is as long, is that base. */
  lemma SameBase(base: string, path: string)
    requires BaseMatches(base, path) && path != "" && path[0] == '/' && |base| >= |path|
    ensures base == path
  {
    if base != "/" { BaseIsPrefix(base, path); }
  }

  // ----- Order -----

  lemma PrefixIsBelow(s: string, t: string)
    requires s < t
    ensures Below(s, t)
  {
    BelowAfter(s, "", t[|s|..]);
    assert s + "" == s && s + t[|s|..] == t;
  }

  lemma BelowAt(p: string, s: string, t: string)
    requires p < s && p < t && s[|p|] < t[|p|]
    ensures Below(s, t) && !Below(t, s)
  {
    BelowAfter(p, s[|p|..], t[|p|..]);
    BelowAfter(p, t[|p|..], s[|p|..]);
    assert p + s[|p|..] == s && p + t[|p|..] == t;
  }

  lemma WithoutStar(p: string)
    requires EndsWith(p, "/*")
    ensures p[..|p| - 1] < p && p == p[..|p| - 1] + "*" && p[|p| - 1] == '*' && p[|p| - 2] == '/'
  {
    assert p[|p| - 2..][0] == '/' && p[|p| - 2..][1] == '*';
  }

  lemma StarAfterSlash(base: string)
    ensures var p := "/r" + base + "/*"; EndsWith(p, "/*") && p[..|p| - 1] == "/r" + base + "/"
  {
  }

  /** A wildcard route is below what continues its base, unless it hides it. */
  lemma BelowContinuation(wildcard: string, c: string)
    requires EndsWith(wildcard, "/*") && wildcard[..|wildcard| - 1] <= c && c != wildcard
    requires !HidesSegment(wildcard, c) && !HidesSlash(wildcard, c)
    ensures Below(wildcard, c)
  {
    var prefix := wildcard[..|wildcard| - 1];
    WithoutStar(wildcard);
    assert prefix < c;
    if c[|prefix|] > '*' {
      BelowAt(prefix, wildcard, c);
    } else {
      assert c[..|wildcard|] == prefix + "*";
      PrefixIsBelow(wildcard, c);
    }
  }

  predicate Hides(wildcard: string, hidden: string) {
    HidesSegment(wildcard, hidden) || HidesSlash(wildcard, hidden) || HidesRoot(wildcard, hidden)
  }

  /** Unless hidden, the route with the longer base comes first. */
  lemma LongerComesFirst(short: string, a: string, long: string, c: string)
    requires Spells(short, a) && Spells(long, c) && |a| < |c| && (a == "/" || a + "/" <= c) && !Hides(short, long)
    ensures Below(short, long)
  {
    MountedBase(a, c, long);
    if !EndsWith(short, "/*") {
      assert short == "/r" + a;
      PrefixIsBelow(short, long);
    } else {
      StarAfterSlash(a);
      SpellingsDiffer(a, c, long);
      if a == "/" && long[3] != '/' {
        SpellingsDiffer("", c, long);
        BelowAtRoot(short, long);
      } else {
        if a == "/" { assert long[..4] == "/r//"; }
        BelowContinuation(short, long);
      }
    }
  }

  lemma BelowAtRoot(short: string, long: string)
    requires short == "/r//*" && "/r/" < long && long[3] != '/' && long != "/r/*" && !HidesRoot(short, long)
    ensures Below(short, long)
  {
    assert short[..3] == "/r/" && short[3] == '/';
    BelowAt("/r/", short, long);
  }

  /** What a longer base puts behind a shorter one. */
  lemma MountedBase(a: string, c: string, long: string)
    requires Spells(long, c) && RootedBase(a) && |a| < |c| && (a == "/" || a + "/" <= c)
    ensures "/r" + a < long && (a == "/" ==> "/r/" < long) && (a + "/" <= c ==> "/r" + a + "/" <= long)
  {
    var mounted := "/r" + c;
    assert mounted <= long;
    if a == "/" {
      assert mounted[..3] == "/r/";
      assert a + "/" <= c ==> mounted[..4] == "/r" + (a + "/");
    } else {
      assert mounted[..3 + |a|] == "/r" + (a + "/") == "/r" + a + "/";
    }
  }

  lemma SpellingsDiffer(a: string, c: string, long: string)
    requires Spells(long, c) && |a| < |c|
    ensures long != "/r" + a + "/*"
  {
    StarAfterSlash(a);
  }

  // ----- No shadowing, longest match -----

  /** The wildcard spelling of a base with a trailing slash is above the wildcard that hides the plain one. */
  lemma SlashWildcardIsAbove(wildcard: string, hidden: string)
    requires HidesSlash(wildcard, hidden)
    ensures Below(wildcard, hidden + "/*") && wildcard != hidden + "/*"
  {
    WithoutStar(wildcard);
    BelowAt(hidden, wildcard, hidden + "/*");
  }

  lemma SlashWildcardBase(hidden: string, base: string)
    requires "/r/" <= hidden && Spells(hidden, base) && hidden[|hidden| - 1] == '/'
    ensures "/r/" <= hidden + "/*" && Base(hidden + "/*") == base
  {
    var p := hidden + "/*";
    assert !EndsWith(hidden, "/*") by { if EndsWith(hidden, "/*") { WithoutStar(hidden); } }
    assert hidden == "/r" + base;
    StarAfterSlash(base);
    WildcardSpelling(p);
    assert p[..|p| - 2] == hidden == "/r" + Base(p);
    assert ("/r" + base)[2..] == base && ("/r" + Base(p))[2..] == Base(p);
  }

  lemma NoLaterIsLonger(routes: seq<string>, path: string, i: nat, j: nat)
    requires AllMounted(routes) && Descending(routes) && NoShadowing(routes)
    requires i < j < |routes| && Matches(routes[i], path) && Matches(routes[j], path)
    requires forall k | 0 <= k < i :: !Matches(routes[k], path)
    ensures |Base(routes[j])| <= |Base(routes[i])|
  {
    var first, later := routes[i], routes[j];
    var a, c := Base(first), Base(later);
    assert "/r/" <= first && "/r/" <= later && !Below(first, later) && !Shadows(routes, first, later);
    Spellings(first);
    Spellings(later);
    if |a| < |c| {
      LongerContinues(a, c, path);
      if Hides(first, later) {
        NotFirst(routes, path, i, j);
      } else {
        LongerComesFirst(first, a, later, c);
      }
    }
  }

  lemma AboveComesFirst(routes: seq<string>, i: nat, k: nat)
    requires Descending(routes) && i < |routes| && k < |routes| && Below(routes[i], routes[k]) && routes[i] != routes[k]
    ensures k < i
  {
  }

  /** A plain route that ends in a slash, and its wildcard, match alike. */
  lemma SlashWildcardMatches(hidden: string, path: string)
    requires "/r/" <= hidden && hidden[|hidden| - 1] == '/' && Matches(hidden, path)
    ensures Matches(hidden + "/*", path)
  {
    Spellings(hidden);
    SlashWildcardBase(hidden, Base(hidden));
  }

  /** A hidden plain route with its wildcard beside it: that one comes first. */
  lemma NotFirst(routes: seq<string>, path: string, i: nat, j: nat)
    requires AllMounted(routes) && Descending(routes) && i < |routes| && j < |routes| && Matches(routes[j], path)
    requires HidesSlash(routes[i], routes[j]) && routes[j] + "/*" in routes
    ensures exists k | 0 <= k < i :: Matches(routes[k], path)
  {
    var wildcard, hidden := routes[i], routes[j];
    var k :| 0 <= k < |routes| && routes[k] == hidden + "/*";
    WithoutStar(wildcard);
    SlashWildcardMatches(hidden, path);
    SlashWildcardIsAbove(wildcard, hidden);
    AboveComesFirst(routes, i, k);
  }

  lemma UnshadowedIsLongest(routes: seq<string>, path: string)
    requires AllMounted(routes) && Descending(routes) && NoShadowing(routes) && FirstMatch(routes, path).Some?
    ensures IsLongestMatch(routes, path, FirstMatch(routes, path).value)
  {
    var i := FirstMatch(routes, path).value;
    forall j | 0 <= j < |routes| && Matches(routes[j], path)
      ensures |Base(routes[j])| <= |Base(routes[i])|
    {
      if i != j { NoLaterIsLonger(routes, path, i, j); }
    }
  }

  // ----- Shadowing, not longest -----

  /** The wildcard also matches the base of the hidden route, and both spellings of that base are below it. */
  predicate Buried(routes: seq<string>, wildcard: string, a: string, c: string) {
    && |a| < |c| && BaseMatches(a, c)
    && forall i | 0 <= i < |routes| && Spells(routes[i], c) :: Below(routes[i], wildcard) && routes[i] != wildcard
  }

  lemma HiddenSegmentIsBuried(routes: seq<string>, wildcard: string, a: string, hidden: string, c: string)
    requires Spells(wildcard, a) && Spells(hidden, c) && HidesSegment(wildcard, hidden)
    ensures Buried(routes, wildcard, a, c)
  {
    var prefix, mounted := wildcard[..|wildcard| - 1], "/r" + c;
    StarAfterSlash(a);
    WithoutStar(wildcard);
    assert prefix < mounted && mounted[|prefix|] < '*' by { HiddenInBase(prefix, hidden, c); }
    assert a + "/" <= c by {
      assert prefix == "/r" + (a + "/");
      Unmounted(a + "/", c);
    }
    forall i | 0 <= i < |routes| && Spells(routes[i], c) ensures Below(routes[i], wildcard) && routes[i] != wildcard {
      BelowAt(prefix, routes[i], wildcard);
    }
  }

  lemma Unmounted(start: string, base: string)
    requires "/r" + start <= "/r" + base
    ensures start <= base
  {
    var s, b := "/r" + start, "/r" + base;
    assert forall i | 0 <= i < |start| :: start[i] == s[i + 2] && base[i] == b[i + 2] && s[i + 2] == b[i + 2];
  }

  /** A character below '*' is not part of the wildcard's ending. */
  lemma HiddenInBase(prefix: string, hidden: string, c: string)
    requires prefix < hidden && hidden[|prefix|] < '*' && Spells(hidden, c)
    ensures prefix < "/r" + c && ("/r" + c)[|prefix|] < '*'
  {
    if EndsWith(hidden, "/*") {
      WithoutStar(hidden);
      assert |prefix| < |hidden| - 2;
      assert ("/r" + c)[..|prefix|] == hidden[..|prefix|];
    }
  }

  lemma HiddenSlashIsBuried(routes: seq<string>, wildcard: string, a: string, hidden: string, c: string)
    requires Spells(wildcard, a) && Spells(hidden, c) && HidesSlash(wildcard, hidden) && hidden + "/*" !in routes
    ensures Buried(routes, wildcard, a, c)
  {
    StarAfterSlash(a);
    WithoutStar(wildcard);
    assert !EndsWith(hidden, "/*") by { if EndsWith(hidden, "/*") { WithoutStar(hidden); } }
    assert "/r" + c == hidden == "/r" + (a + "/");
    assert c == a + "/" by { assert ("/r" + c)[2..] == c && ("/r" + (a + "/"))[2..] == a + "/"; }
    forall i | 0 <= i < |routes| && Spells(routes[i], c) ensures Below(routes[i], wildcard) && routes[i] != wildcard {
      assert routes[i] in routes;
      assert routes[i] == hidden;
      PrefixIsBelow(hidden, wildcard);
    }
  }

  lemma HiddenRootIsBuried(routes: seq<string>, wildcard: string, a: string, hidden: string, c: string)
    requires Spells(wildcard, a) && Spells(hidden, c) && HidesRoot(wildcard, hidden)
    ensures Buried(routes, wildcard, a, c)
  {
    assert EndsWith(wildcard, "/*") && wildcard[..3] == "/r/" && wildcard[3] == '/';
    assert a == "/" by { assert wildcard == "/r" + a + "/*" && wildcard[2..3] == a; }
    var mounted := "/r" + c;
    assert |c| > 1 && mounted[..3] == "/r/" && mounted[3] == hidden[3] by { RootSegment(hidden, c); }
    forall i | 0 <= i < |routes| && Spells(routes[i], c) ensures Below(routes[i], wildcard) && routes[i] != wildcard {
      assert mounted <= routes[i];
      BelowAt("/r/", routes[i], wildcard);
    }
  }

  lemma RootSegment(hidden: string, c: string)
    requires Spells(hidden, c) && "/r/" < hidden && hidden[3] != '/' && hidden != "/r/*"
    ensures |c| > 1 && ("/r" + c)[..3] == "/r/" && ("/r" + c)[3] == hidden[3]
  {
    if EndsWith(hidden, "/*") {
      WithoutStar(hidden);
      assert |hidden| == |c| + 4 && hidden[|c| + 2] == '/';
    } else {
      assert hidden == "/r" + c;
    }
  }

  lemma ShadowedIsNotLongest(routes: seq<string>, w: nat, h: nat)
    requires AllMounted(routes) && Descending(routes)
    requires w < |routes| && h < |routes| && Shadows(routes, routes[w], routes[h])
    ensures var path := Base(routes[h]);
            var first := FirstMatch(routes, path);
            first.Some? && !IsLongestMatch(routes, path, first.value)
  {
    var a, c := Base(routes[w]), Base(routes[h]);
    Spellings(routes[w]);
    Spellings(routes[h]);
    if HidesSegment(routes[w], routes[h]) {
      HiddenSegmentIsBuried(routes, routes[w], a, routes[h], c);
    } else if HidesRoot(routes[w], routes[h]) {
      HiddenRootIsBuried(routes, routes[w], a, routes[h], c);
    } else {
      HiddenSlashIsBuried(routes, routes[w], a, routes[h], c);
    }
    BuriedIsNotLongest(routes, w, h);
  }

  lemma BuriedIsNotLongest(routes: seq<string>, w: nat, h: nat)
    requires AllMounted(routes) && Descending(routes) && w < |routes| && h < |routes|
    requires Buried(routes, routes[w], Base(routes[w]), Base(routes[h]))
    ensures var path := Base(routes[h]);
            var first := FirstMatch(routes, path);
            first.Some? && !IsLongestMatch(routes, path, first.value)
  {
    var path := Base(routes[h]);
    assert Matches(routes[w], path) && Matches(routes[h], path);
    FirstIsNotLongest(routes, path, w, h, FirstMatch(routes, path).value);
  }

  lemma FirstIsNotLongest(routes: seq<string>, path: string, w: nat, h: nat, f: nat)
    requires AllMounted(routes) && Descending(routes) && w < |routes| && h < |routes| && f <= w
    requires path == Base(routes[h]) && Matches(routes[h], path)
    requires Buried(routes, routes[w], Base(routes[w]), path)
    ensures !IsLongestMatch(routes, path, f)
  {
    if Matches(routes[f], path) && |Base(routes[f])| >= |path| {
      Spellings(routes[f]);
      Spellings(routes[h]);
      SameBase(Base(routes[f]), path);
      AboveComesFirst(routes, f, w);
    }
  }

  /**
   * For any routes under /r/, plain and wildcard mixed, doubled and trailing slashes included: the
   * first match is a longest match, for every request, exactly when no wildcard shadows a route.
   */
  lemma FirstIsLongestIff(routes: seq<string>)
    requires AllMounted(routes) && Descending(routes)
    ensures FirstIsLongest(routes) <==> NoShadowing(routes)
  {
    if NoShadowing(routes) {
      forall path | FirstMatch(routes, path).Some?
        ensures IsLongestMatch(routes, path, FirstMatch(routes, path).value)
      {
        UnshadowedIsLongest(routes, path);
      }
    } else {
      var w, h :| 0 <= w < |routes| && 0 <= h < |routes| && Shadows(routes, routes[w], routes[h]);
      ShadowedIsNotLongest(routes, w, h);
    }
  }

  // ----- Ordinary routes, and two that are not -----

  /** No empty segment, and every segment starts with a character above '*', except a trailing wildcard. */
  predicate OrdinaryPath(p: string) {
    && "/r/" <= p && p[|p| - 1] != '/'
    && forall i | 0 <= i < |p| - 1 && p[i] == '/' ::
         p[i + 1] != '/' && (p[i + 1] > '*' || (i == |p| - 2 && p[i + 1] == '*'))
  }

  lemma OrdinaryPathsDoNotHide(wildcard: string, hidden: string)
    requires OrdinaryPath(wildcard) && OrdinaryPath(hidden)
    ensures !Hides(wildcard, hidden)
  {
    var doubled := "/r//*";
    assert |doubled| == 5 && doubled[2] == '/' && doubled[3] == '/';
    assert !OrdinaryPath(doubled);
    if EndsWith(wildcard, "/*") {
      var n := |wildcard| - 1;
      WithoutStar(wildcard);
      if wildcard[..n] <= hidden { assert hidden[n - 1] == wildcard[..n][n - 1]; }
    }
  }

  /** A name of segments, each non-empty and starting above '*'. */
  predicate OrdinarySegments(segments: seq<string>) {
    segments != [] && forall s | s in segments :: s != "" && Text.Free(s, '/') && s[0] > '*'
  }

  /** In `p` every slash is followed by a character above '*' that is no slash. */
  predicate WellSlashed(p: string) {
    p != "" && p[|p| - 1] != '/' && forall i | 0 <= i < |p| - 1 && p[i] == '/' :: p[i + 1] != '/' && p[i + 1] > '*'
  }

  lemma {:induction false} SegmentsAreWellSlashed(segments: seq<string>)
    requires OrdinarySegments(segments)
    ensures var p := Text.Separated(segments, '/'); |p| > 1 && p[0] == '/' && WellSlashed(p)
    decreases |segments|
  {
    var head, rest := segments[0], segments[1..];
    assert head in segments;
    var p := Text.Separated(segments, '/');
    Text.SeparatedCons(segments, '/');
    if rest == [] {
      assert p[1..] == head;
      assert forall i | 1 <= i < |p| :: p[i] == head[i - 1];
    } else {
      var tail := Text.Separated(rest, '/');
      SegmentsAreWellSlashed(rest);
      assert p[1..] == head + tail;
      assert forall i | 1 <= i <= |head| :: p[i] == head[i - 1];
      assert forall i | |head| < i < |p| :: p[i] == tail[i - 1 - |head|];
    }
  }

  /** Routes named by ordinary segments, with a wildcard or without, are ordinary paths. */
  lemma OrdinaryNames(segments: seq<string>)
    requires OrdinarySegments(segments)
    ensures var p := "/r" + Text.Separated(segments, '/'); OrdinaryPath(p) && OrdinaryPath(p + "/*")
  {
    var name := Text.Separated(segments, '/');
    SegmentsAreWellSlashed(segments);
    var p := "/r" + name;
    var wild := p + "/*";
    assert forall i | 2 <= i < |p| :: p[i] == name[i - 2];
    assert forall i | 0 <= i < |p| :: wild[i] == p[i];
  }

  /** Letters, digits and the usual marks are all above '*', so ordinary route sets are safe. */
  lemma OrdinarySegmentsAreSafe(routes: seq<string>)
    requires Descending(routes) && forall i | 0 <= i < |routes| :: OrdinaryPath(routes[i])
    ensures FirstIsLongest(routes)
  {
    forall i, j | 0 <= i < |routes| && 0 <= j < |routes|
      ensures !Shadows(routes, routes[i], routes[j])
    {
      OrdinaryPathsDoNotHide(routes[i], routes[j]);
    }
    FirstIsLongestIff(routes);
  }

  /** In a shadowed pair the wildcard answers the request that has a route of its own. */
  lemma ShadowedPair(wildcard: string, hidden: string)
    requires "/r/" <= wildcard && "/r/" <= hidden && Below(hidden, wildcard)
    requires Shadows([wildcard, hidden], wildcard, hidden)
    ensures var routes := [wildcard, hidden];
            Descending(routes) && FirstMatch(routes, Base(hidden)) == Some(0) && !FirstIsLongest(routes)
  {
    var routes := [wildcard, hidden];
    BelowIsAsymmetric(hidden, wildcard);
    assert Shadows(routes, routes[0], routes[1]);
    ShadowedIsNotLongest(routes, 0, 1);
    var f := FirstMatch(routes, Base(hidden)).value;
    assert FirstMatch(routes, Base(hidden)).Some? && !IsLongestMatch(routes, Base(hidden), f);
  }

  // "/r/a/*" takes the requests of "/r/a/!x".
  lemma ShadowingHappens()
    ensures var routes := ["/r/a/*", "/r/a/!x"];
            Descending(routes) && FirstMatch(routes, "/a/!x") == Some(0) && !FirstIsLongest(routes)
  {
    var wildcard, hidden := "/r/a/*", "/r/a/!x";
    assert wildcard[..5] == "/r/a/" == hidden[..5];
    assert EndsWith(wildcard, "/*");
    BelowAt("/r/a/", hidden, wildcard);
    assert hidden[2..] == "/a/!x" && hidden[5..] == "!x";
    assert Base(hidden) == "/a/!x";
    ShadowedPair(wildcard, hidden);
  }

  // "/r/a/*" takes the requests of "/r/a/".
  lemma TrailingSlashIsShadowed()
    ensures var routes := ["/r/a/*", "/r/a/"];
            Descending(routes) && FirstMatch(routes, "/a/") == Some(0) && !FirstIsLongest(routes)
  {
    var wildcard, hidden := "/r/a/*", "/r/a/";
    assert wildcard[..5] == hidden && EndsWith(wildcard, "/*");
    PrefixIsBelow(hidden, wildcard);
    assert hidden[2..] == "/a/" && hidden[3..] == "a/";
    assert Base(hidden) == "/a/";
    assert hidden + "/*" !in [wildcard, hidden] by { assert |hidden + "/*"| == 7; }
    ShadowedPair(wildcard, hidden);
  }

  lemma {:induction false} BelowIsAsymmetric(a: string, b: string)
    requires Below(a, b)
    ensures !Below(b, a)
    decreases |a|
  {
    if a != "" && a[0] == b[0] { BelowIsAsymmetric(a[1..], b[1..]); }
  }
}
