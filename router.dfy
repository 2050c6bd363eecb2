/**
 * File-system routing: every view file under a root directory becomes a
 * route. Its path relative to the root, such as `a/[id]/b/[...rest].html`,
 * is parsed into a URL pattern for the target router (with the Fiber
 * preset, `/a/:id/b/` followed by the wildcard `*`), the parameters it
 * declares (`id`, then the catch-all `rest`) and the path itself.
 */
module Router {
  import opened Wrappers
  import opened GoStrings
  import opened Patterns

  /** An error returned by the file-system collaborators, by its message. */
  type Error = string

  /** Where the views are, which files count as views, and which preset rewrites them. */
  datatype FSRouter = FSRouter(root: string, includePattern: string, preset: Preset)

  /** `New`: a router over `rootDir` that takes every `.html` file at any depth. */
  function New(rootDir: string, preset: Preset): (r: FSRouter)
    ensures r.root == rootDir && r.preset == preset
    ensures r.includePattern == "**/*.html"
  {
    FSRouter(rootDir, "**/*.html", preset)
  }

  /** A declared parameter: its name, and whether it is a catch-all `[...name]`. */
  datatype RouteParam = RouteParam(name: string, nested: bool)

  /** A parsed route: the URL pattern, the declared parameters in order, the view path. */
  datatype Route = Route(name: string, paramNames: seq<RouteParam>, path: string)

  function ParamOf(t: Token): RouteParam {
    RouteParam(t.name, t.nested)
  }

  /** The parameters a view path declares: one per bracket token, left to right. */
  function DeclaredParams(path: string): seq<RouteParam> {
    var ts := FindAllParams(path);
    seq(|ts|, i requires 0 <= i < |ts| => ParamOf(ts[i]))
  }

  /**
   * The common replacements that end `parseRoute`: a final `index.html` is
   * cut off; otherwise a final `.html` is; otherwise nothing changes. The
   * test is on the text, not on path segments.
   */
  function TrimHtml(route: string): (r: string)
    ensures HasSuffix(route, "index.html") ==> r + "index.html" == route
    ensures !HasSuffix(route, "index.html") && HasSuffix(route, ".html") ==> r + ".html" == route
    ensures !HasSuffix(route, "index.html") && !HasSuffix(route, ".html") ==> r == route
  {
    if HasSuffix(route, "index.html") then TrimSuffix(route, "index.html")
    else if HasSuffix(route, ".html") then TrimSuffix(route, ".html")
    else route
  }

  /** A final `index.html` is cut off whole: `/blog/index.html` is served at `/blog/`. */
  lemma TrimHtmlIndex(a: string)
    ensures TrimHtml(a + "index.html") == a
  {
    TrimSuffixOfConcat(a, "index.html");
  }

  /** Any other final `.html` is cut off: `/about.html` is served at `/about`. */
  lemma TrimHtmlPage(a: string)
    requires !HasSuffix(a, "index")
    ensures TrimHtml(a + ".html") == a
  {
    TrimSuffixOfConcat(a, ".html");
  }

  /** The route `parseRoute` builds from a view path relative to the root. */
  function ParsedRoute(fsr: FSRouter, path: string): Route {
    Route(TrimHtml(Rewrite("/" + path, fsr.preset)), DeclaredParams(path), path)
  }

  /** Group 2 of a match is the name, and group 1 starts with `...` exactly for a catch-all. */
  lemma SubmatchParam(t: Token)
    requires ValidToken(t)
    ensures RouteParam(SubmatchOf(t).group2, HasPrefix(SubmatchOf(t).group1, "...")) == ParamOf(t)
  {
    if !t.nested {
      assert SubmatchOf(t).group1 == t.name;
      assert t.name[0] != '.';
    }
  }

  /** Match `i` of `FindAllStringSubmatch` yields parameter `i` of the path. */
  lemma SubmatchParamAt(path: string, i: nat)
    requires i < |FindAllParams(path)|
    ensures |FindAllStringSubmatch(path)| == |FindAllParams(path)|
    ensures var m := FindAllStringSubmatch(path)[i];
      RouteParam(m.group2, HasPrefix(m.group1, "...")) == ParamOf(FindAllParams(path)[i])
  {
    var ts := FindAllParams(path);
    assert ts[i] in ts;
    SubmatchParam(ts[i]);
  }

  /**
   * The first half of `parseRoute`: the parameters are collected from
   * paramRegex's matches, before the path is rewritten; `Nested` is read
   * off the `...` that group 1 starts with.
   */
  method CollectParams(path: string) returns (paramNames: seq<RouteParam>)
    ensures paramNames == DeclaredParams(path)
  {
    paramNames := [];
    var allParamMatches := FindAllStringSubmatch(path);
    ghost var ts := FindAllParams(path);
    assert |allParamMatches| == |ts|;
    for i := 0 to |allParamMatches|
      invariant |paramNames| == i
      invariant forall k :: 0 <= k < i ==> paramNames[k] == ParamOf(ts[k])
    {
      var paramMatch := allParamMatches[i];
      SubmatchParamAt(path, i);
      paramNames := paramNames + [RouteParam(paramMatch.group2, HasPrefix(paramMatch.group1, "..."))];
    }
  }

  /**
   * `parseRoute`: the parameters, then the pattern, rewritten by the
   * preset's single then nested replacement, with the `.html` rule last.
   */
  method ParseRoute(fsr: FSRouter, path: string) returns (r: Route)
    ensures r == ParsedRoute(fsr, path)
  {
    var paramNames := CollectParams(path);

    var route := "/" + path;
    route := ReplaceSingles(route, fsr.preset);
    route := ReplaceNested(route, fsr.preset);

    if HasSuffix(route, "index.html") {
      route := TrimSuffix(route, "index.html");
    } else if HasSuffix(route, ".html") {
      route := TrimSuffix(route, ".html");
    }

    r := Route(route, paramNames, path);
  }

  /** The pattern always starts with `/`, and the route keeps the path it was parsed from. */
  lemma ParsedRouteShape(fsr: FSRouter, path: string)
    ensures ParsedRoute(fsr, path).path == path
    ensures |ParsedRoute(fsr, path).name| > 0 && ParsedRoute(fsr, path).name[0] == '/'
  {
    var p := fsr.preset;
    SinglesSkip("/", path, p);
    NestedSkip("/", ReplaceSingles(path, p), p);
    var route := Rewrite("/" + path, p);
    assert route == "/" + ReplaceNested(ReplaceSingles(path, p), p);
    var name := TrimHtml(route);
    if HasSuffix(route, "index.html") {
      assert route[0] != "index.html"[0];
      assert route == name + "index.html";
      assert |name| > 0 && name[0] == route[0];
    } else if HasSuffix(route, ".html") {
      assert route[0] != ".html"[0];
      assert route == name + ".html";
      assert |name| > 0 && name[0] == route[0];
    }
  }

  /**
   * With a safe preset (Fiber and Chi are), the pattern is `/` and the
   * path with every token the one-pass tokenizer finds rendered once by
   * the preset and every other character kept, the `.html` rule applied
   * last.
   */
  lemma ParsedRouteIsOnePass(fsr: FSRouter, path: string)
    requires SafePreset(fsr.preset)
    ensures ParsedRoute(fsr, path).name == TrimHtml("/" + Render(Tokenize(path), fsr.preset))
  {
    var p := fsr.preset;
    RewriteIsOnePass("/" + path, p);
    NoMatchWithoutBracket("/" + path);
    assert ("/" + path)[1..] == path;
    assert Tokenize("/" + path) == [Lit('/')] + Tokenize(path);
    assert Render(Tokenize("/" + path), p) == "/" + Render(Tokenize(path), p);
  }

  /**
   * A path without any well-formed token declares nothing, under any
   * preset, and its pattern is `/` and the path with only the `.html` rule
   * applied; malformed brackets stay as they are written.
   */
  lemma PlainPathRoute(fsr: FSRouter, path: string)
    requires TokenFree(path)
    ensures ParsedRoute(fsr, path).paramNames == []
    ensures ParsedRoute(fsr, path).name == TrimHtml("/" + path)
  {
    NoMatchWithoutBracket("/" + path);
    TokenFreeCons('/', path);
    TokenFreeUnchanged("/" + path, fsr.preset);
    TokenFreeUnchanged(path, fsr.preset);
  }

  /** With a safe preset, no well-formed token is left in a parsed pattern. */
  lemma ParsedNameIsTokenFree(fsr: FSRouter, path: string, t: Token)
    requires SafePreset(fsr.preset) && ValidToken(t)
    ensures !Occurs(TokenText(t), ParsedRoute(fsr, path).name)
  {
    var p := fsr.preset;
    RewriteIsOnePass("/" + path, p);
    RenderIsTokenFree("/" + path, p, t);
    var route := Rewrite("/" + path, p);
    var name := TrimHtml(route);
    assert name <= route;
    if Occurs(TokenText(t), name) {
      OccursInPrefix(TokenText(t), name, route);
    }
  }

  // ---------------------------------------------------------------------
  // Realize

  /**
   * The text `Realize` replaces for a parameter: `[name]`, or `[...name]`
   * when nested. It is the token's own text (`ParamTextOf`).
   */
  function ParamText(pn: RouteParam): string {
    if pn.nested then "[..." + pn.name + "]" else "[" + pn.name + "]"
  }

  /** Go's map index: the value stored, or the empty string for a missing key. */
  function Lookup(params: map<string, string>, key: string): string {
    if key in params then params[key] else ""
  }

  /** `s` after each parameter's text, in turn, is replaced by its value. */
  function Realized(s: string, pns: seq<RouteParam>, params: map<string, string>): string
    decreases |pns|
  {
    if |pns| == 0 then s
    else Realized(ReplaceAll(s, ParamText(pns[0]), Lookup(params, pns[0].name)), pns[1..], params)
  }

  /** `Realize`: substitutes the values into the route's pattern (`Name`), never failing. */
  method Realize(r: Route, params: map<string, string>) returns (path: string)
    ensures path == Realized(r.name, r.paramNames, params)
  {
    path := r.name;
    for i := 0 to |r.paramNames|
      invariant Realized(path, r.paramNames[i..], params) == Realized(r.name, r.paramNames, params)
    {
      var pn := r.paramNames[i];
      assert r.paramNames[i..][1..] == r.paramNames[i + 1..];
      if pn.nested {
        path := ReplaceAll(path, "[..." + pn.name + "]", Lookup(params, pn.name));
      } else {
        path := ReplaceAll(path, "[" + pn.name + "]", Lookup(params, pn.name));
      }
    }
    assert r.paramNames[|r.paramNames|..] == [];
  }

  /** Substituting parameters whose texts do not occur changes nothing. */
  lemma {:induction false} RealizedUnchanged(s: string, pns: seq<RouteParam>, params: map<string, string>)
    requires forall k :: 0 <= k < |pns| ==> !Occurs(ParamText(pns[k]), s)
    ensures Realized(s, pns, params) == s
    decreases |pns|
  {
    if |pns| > 0 {
      RealizedUnchanged(s, pns[1..], params);
    }
  }

  /** The text `Realize` looks for is the token's own text. */
  lemma ParamTextOf(t: Token)
    ensures ParamText(ParamOf(t)) == TokenText(t)
  {
    if t.nested {
      Regroup("[", "...", t.name);
    } else {
      assert "[" + "" + t.name == "[" + t.name;
    }
  }

  /** Each declared parameter is written in the path as the token it came from. */
  lemma DeclaredParamIsToken(path: string, k: nat)
    requires k < |DeclaredParams(path)|
    ensures ValidToken(FindAllParams(path)[k])
    ensures ParamText(DeclaredParams(path)[k]) == TokenText(FindAllParams(path)[k])
    ensures Occurs(ParamText(DeclaredParams(path)[k]), path)
  {
    var ts := FindAllParams(path);
    assert ts[k] in ts;
    assert DeclaredParams(path)[k] == ParamOf(ts[k]);
    ParamTextOf(ts[k]);
    FoundIffPresent(path, ts[k]);
  }

  /**
   * A parameter is declared exactly when its token is written somewhere in
   * the path: every `[name]` and `[...name]` in the path is collected, and
   * nothing else is.
   */
  lemma DeclaredIffPresent(path: string, t: Token)
    requires ValidToken(t)
    ensures ParamOf(t) in DeclaredParams(path) <==> Occurs(TokenText(t), path)
  {
    var ts := FindAllParams(path);
    var pns := DeclaredParams(path);
    FoundIffPresent(path, t);
    if t in ts {
      var k :| 0 <= k < |ts| && ts[k] == t;
      assert pns[k] == ParamOf(t);
    }
    if ParamOf(t) in pns {
      var k :| 0 <= k < |pns| && pns[k] == ParamOf(t);
      assert ts[k] == t;
    }
  }

  /**
   * Because `Realize` works on the rewritten pattern, in which no declared
   * token is left, it returns the pattern unchanged for every route parsed
   * with a safe preset, whatever values it is given.
   */
  lemma RealizeParsedRoute(fsr: FSRouter, path: string, params: map<string, string>)
    requires SafePreset(fsr.preset)
    ensures Realized(ParsedRoute(fsr, path).name, ParsedRoute(fsr, path).paramNames, params)
            == ParsedRoute(fsr, path).name
  {
    var name := ParsedRoute(fsr, path).name;
    var pns := DeclaredParams(path);
    forall k | 0 <= k < |pns| ensures !Occurs(ParamText(pns[k]), name) {
      DeclaredParamIsToken(path, k);
      ParsedNameIsTokenFree(fsr, path, FindAllParams(path)[k]);
    }
    RealizedUnchanged(name, pns, params);
  }

  /** What `Realize` gives for a parsed route holds none of its declared parameters' texts. */
  lemma RealizedLeavesNoToken(fsr: FSRouter, path: string, params: map<string, string>, k: nat)
    requires SafePreset(fsr.preset) && k < |ParsedRoute(fsr, path).paramNames|
    ensures !Occurs(ParamText(ParsedRoute(fsr, path).paramNames[k]),
                    Realized(ParsedRoute(fsr, path).name, ParsedRoute(fsr, path).paramNames, params))
  {
    RealizeParsedRoute(fsr, path, params);
    DeclaredParamIsToken(path, k);
    ParsedNameIsTokenFree(fsr, path, FindAllParams(path)[k]);
  }

  // ---------------------------------------------------------------------
  // ExtractMap

  /** The declared names, duplicates counted once. */
  function NameSet(pns: seq<RouteParam>): (names: set<string>)
    ensures forall k :: k in names <==> exists i :: 0 <= i < |pns| && pns[i].name == k
    ensures |names| <= |pns|
  {
    if |pns| == 0 then {} else {pns[0].name} + NameSet(pns[1..])
  }

  /** `ExtractMap`: one entry per declared name, holding what the accessor gives for it. */
  method ExtractMap(r: Route, valueFn: string -> string) returns (m: map<string, string>)
    ensures m.Keys == NameSet(r.paramNames)
    ensures forall k :: k in m ==> m[k] == valueFn(k)
  {
    m := map[];
    for i := 0 to |r.paramNames|
      invariant forall k :: k in m <==> exists j :: 0 <= j < i && r.paramNames[j].name == k
      invariant forall k :: k in m ==> m[k] == valueFn(k)
    {
      var name := r.paramNames[i].name;
      m := m[name := valueFn(name)];
    }
  }

  // ---------------------------------------------------------------------
  // LoadRoutes

  /** The first `n` matches can be made relative to the root. */
  ghost predicate RelativeUpTo(fsr: FSRouter, matches: seq<string>, rel: (string, string) -> Result<string, Error>, n: nat)
    requires n <= |matches|
  {
    forall k :: 0 <= k < n ==> rel(fsr.root, matches[k]).Success?
  }

  /**
   * What loading the sorted `matches` gives: either one parsed route per
   * match, at the same index, each from the match made relative; or the
   * error of the first match that cannot be made relative.
   */
  ghost predicate LoadedFrom(
    fsr: FSRouter,
    matches: seq<string>,
    rel: (string, string) -> Result<string, Error>,
    res: Result<seq<Route>, Error>
  ) {
    match res
    case Success(routes) =>
      && RelativeUpTo(fsr, matches, rel, |matches|)
      && |routes| == |matches|
      && forall k :: 0 <= k < |matches| ==> routes[k] == ParsedRoute(fsr, rel(fsr.root, matches[k]).value)
    case Failure(e) =>
      exists k :: 0 <= k < |matches| && rel(fsr.root, matches[k]) == Failure(e) && RelativeUpTo(fsr, matches, rel, k)
  }

  /** The first `n` of `ys` are the images under `f` of the first `n` of `xs`. */
  ghost predicate Agrees<A, B>(ys: seq<B>, f: A --> B, xs: seq<A>, n: nat)
    requires n <= |xs| && n <= |ys|
  {
    forall k :: 0 <= k < n ==> f.requires(xs[k]) && ys[k] == f(xs[k])
  }

  /** Writing the image of element `i` at index `i` extends the agreement by one. */
  lemma AgreeStep<A, B>(before: seq<B>, after: seq<B>, f: A --> B, xs: seq<A>, i: nat)
    requires i < |xs| && i < |before| == |after|
    requires Agrees(before, f, xs, i) && after[..i] == before[..i]
    requires f.requires(xs[i]) && after[i] == f(xs[i])
    ensures Agrees(after, f, xs, i + 1)
  {
    forall k | 0 <= k < i
      ensures after[k] == before[k]
    {
      assert after[..i][k] == before[..i][k];
    }
  }

  /** The route `parseRoute` gives for a match once it is made relative to the root. */
  ghost function RouteOfMatch(fsr: FSRouter, rel: (string, string) -> Result<string, Error>): string --> Route {
    m requires rel(fsr.root, m).Success? => ParsedRoute(fsr, rel(fsr.root, m).value)
  }

  /** The routes, when every match is relative and each route is parsed from its match. */
  lemma LoadedAll(
    fsr: FSRouter,
    matches: seq<string>,
    rel: (string, string) -> Result<string, Error>,
    routes: seq<Route>
  )
    requires RelativeUpTo(fsr, matches, rel, |matches|) && |routes| == |matches|
    requires Agrees(routes, RouteOfMatch(fsr, rel), matches, |matches|)
    ensures LoadedFrom(fsr, matches, rel, Success(routes))
  {
  }

  /** The error of the first match that cannot be made relative. */
  lemma LoadedFirstError(
    fsr: FSRouter,
    matches: seq<string>,
    rel: (string, string) -> Result<string, Error>,
    i: nat
  )
    requires i < |matches| && RelativeUpTo(fsr, matches, rel, i) && rel(fsr.root, matches[i]).Failure?
    ensures LoadedFrom(fsr, matches, rel, Failure(rel(fsr.root, matches[i]).error))
  {
  }

  /** When every match is relative, loading cannot report an error. */
  lemma AllRelativeLoads(
    fsr: FSRouter,
    matches: seq<string>,
    rel: (string, string) -> Result<string, Error>,
    res: Result<seq<Route>, Error>
  )
    requires RelativeUpTo(fsr, matches, rel, |matches|) && LoadedFrom(fsr, matches, rel, res)
    ensures res.Success?
  {
  }

  /**
   * The outcome is determined by the matches and the collaborators: the
   * routes when every match is relative, otherwise the error of the first
   * one that is not. Loading twice over unchanged files gives the same.
   */
  lemma LoadedFromIsDetermined(
    fsr: FSRouter,
    matches: seq<string>,
    rel: (string, string) -> Result<string, Error>,
    res1: Result<seq<Route>, Error>,
    res2: Result<seq<Route>, Error>
  )
    requires LoadedFrom(fsr, matches, rel, res1) && LoadedFrom(fsr, matches, rel, res2)
    ensures res1 == res2
  {
    if res1.Success? {
      AllRelativeLoads(fsr, matches, rel, res2);
    }
    if res2.Success? {
      AllRelativeLoads(fsr, matches, rel, res1);
    }
    if res1.Success? && res2.Success? {
      assert res1.value == res2.value;
    }
    if res1.Failure? && res2.Failure? {
      var k1 :| 0 <= k1 < |matches| && rel(fsr.root, matches[k1]) == Failure(res1.error) && RelativeUpTo(fsr, matches, rel, k1);
      var k2 :| 0 <= k2 < |matches| && rel(fsr.root, matches[k2]) == Failure(res2.error) && RelativeUpTo(fsr, matches, rel, k2);
      assert !(k1 < k2) && !(k2 < k1);
    }
  }

  /**
   * `LoadRoutes`. `glob` stands for `zglob.Glob(filepath.Join(root,
   * pattern))` and `rel` for `filepath.Rel(root, path)`. The matches are
   * sorted, then each is made relative and parsed into the route at the
   * same index; the first failure is returned alone.
   */
  method LoadRoutes(
    fsr: FSRouter,
    glob: (string, string) -> Result<seq<string>, Error>,
    rel: (string, string) -> Result<string, Error>
  ) returns (res: Result<seq<Route>, Error>)
    ensures glob(fsr.root, fsr.includePattern).Failure? ==>
      res == Failure(glob(fsr.root, fsr.includePattern).error)
    ensures glob(fsr.root, fsr.includePattern).Success? ==>
      LoadedFrom(fsr, SortStrings(glob(fsr.root, fsr.includePattern).value), rel, res)
  {
    var found := glob(fsr.root, fsr.includePattern);
    if found.Failure? {
      return Failure(found.error);
    }

    var matches := SortStrings(found.value);

    var routes := new Route[|matches|];
    for i := 0 to |matches|
      invariant RelativeUpTo(fsr, matches, rel, i)
      invariant Agrees(routes[..], RouteOfMatch(fsr, rel), matches, i)
    {
      var relPath := rel(fsr.root, matches[i]);
      if relPath.Failure? {
        LoadedFirstError(fsr, matches, rel, i);
        return Failure(relPath.error);
      }
      var route := ParseRoute(fsr, relPath.value);
      ghost var before := routes[..];
      routes[i] := route;
      AgreeStep(before, routes[..], RouteOfMatch(fsr, rel), matches, i);
    }

    LoadedAll(fsr, matches, rel, routes[..]);
    return Success(routes[..]);
  }
}
