/**
 * Worked routes: the examples the router's behaviour is usually explained
 * with, each derived from the general lemmas about the tokenizer and the
 * parser. The view path is a parameter fixed by the precondition.
 */
module Scenarios {
  import opened GoStrings
  import opened Patterns
  import opened Router

  /** The plain view paths below hold no `[` and split as their patterns need. */
  lemma PlainTexts()
    ensures '[' !in "index.html" && '[' !in "blog/index.html" && '[' !in "about.html" && '[' !in "blogindex.html"
    ensures "/" + "blog/index.html" == "/blog/" + "index.html"
    ensures "/" + "about.html" == "/about" + ".html" && !HasSuffix("/about", "index")
    ensures "/" + "blogindex.html" == "/blog" + "index.html"
  {
  }

  /** `index.html` at the root is served at `/` and declares nothing, under any preset. */
  lemma RootIndex(fsr: FSRouter, path: string)
    requires path == "index.html"
    ensures ParsedRoute(fsr, path) == Route("/", [], path)
  {
    PlainTexts();
    NoBracketTokenFree(path);
    PlainPathRoute(fsr, path);
    TrimHtmlIndex("/");
  }

  /** A directory's `index.html` is served at the directory, trailing slash kept. */
  lemma DirectoryIndex(fsr: FSRouter, path: string)
    requires path == "blog/index.html"
    ensures ParsedRoute(fsr, path) == Route("/blog/", [], path)
  {
    PlainTexts();
    NoBracketTokenFree(path);
    PlainPathRoute(fsr, path);
    TrimHtmlIndex("/blog/");
  }

  /** Any other page loses its `.html`. */
  lemma PlainPage(fsr: FSRouter, path: string)
    requires path == "about.html"
    ensures ParsedRoute(fsr, path) == Route("/about", [], path)
  {
    PlainTexts();
    NoBracketTokenFree(path);
    PlainPathRoute(fsr, path);
    TrimHtmlPage("/about");
  }

  /** The suffix test is on text, not on path segments: `blogindex.html` is served at `/blog`. */
  lemma IndexSuffixInName(fsr: FSRouter, path: string)
    requires path == "blogindex.html"
    ensures ParsedRoute(fsr, path) == Route("/blog", [], path)
  {
    PlainTexts();
    NoBracketTokenFree(path);
    PlainPathRoute(fsr, path);
    TrimHtmlIndex("/blog");
  }

  /** `[index].html`, split around its token, and its Fiber pattern before `index.html` is cut. */
  lemma IndexTokenTexts()
    ensures "[index].html" == "" + TokenText(Token("index", false)) + ".html"
    ensures '[' !in "" && '[' !in ".html"
    ensures RenderToken(Token("index", false), FiberPreset) == ":index"
    ensures "/" + ("" + ":index" + ".html") == "/:" + "index.html"
  {
  }

  /**
   * The suffix test also cuts into a rendered parameter: under Fiber,
   * `[index].html` is served at `/:` while still declaring `index`.
   */
  lemma IndexTokenCut(fsr: FSRouter, path: string)
    requires fsr.preset == FiberPreset && path == "[index].html"
    ensures ParsedRoute(fsr, path) == Route("/:", [RouteParam("index", false)], path)
  {
    IndexTokenTexts();
    TrimHtmlIndex("/:");
    OneTokenRoute(fsr, "", Token("index", false), ".html");
  }

  /** One token between texts without `[` is rendered in place and declared alone. */
  lemma OneTokenPath(a: string, t: Token, c: string, p: Preset)
    requires '[' !in a && '[' !in c && ValidToken(t)
    ensures Render(Tokenize(a + TokenText(t) + c), p) == a + RenderToken(t, p) + c
    ensures FindAllParams(a + TokenText(t) + c) == [t]
  {
    SkipThenToken(a, t, c, p);
    NoBracketRender(c, p);
  }

  /** The route of a view path holding one token, under a safe preset. */
  lemma OneTokenRoute(fsr: FSRouter, a: string, t: Token, c: string)
    requires SafePreset(fsr.preset)
    requires '[' !in a && '[' !in c && ValidToken(t)
    ensures var path := a + TokenText(t) + c;
      ParsedRoute(fsr, path) == Route(TrimHtml("/" + (a + RenderToken(t, fsr.preset) + c)), [ParamOf(t)], path)
  {
    var path := a + TokenText(t) + c;
    OneTokenPath(a, t, c, fsr.preset);
    ParsedRouteIsOnePass(fsr, path);
  }

  /** `blog/[slug].html`, split around its token. */
  lemma SlugTexts()
    ensures "blog/[slug].html" == "blog/" + TokenText(Token("slug", false)) + ".html"
    ensures '[' !in "blog/" && '[' !in ".html"
  {
  }

  /** The Fiber pattern for `blog/[slug].html`, before and after `.html` is cut. */
  lemma FiberSlugTexts()
    ensures RenderToken(Token("slug", false), FiberPreset) == ":slug"
    ensures "/" + ("blog/" + ":slug" + ".html") == "/blog/:slug" + ".html" && !HasSuffix("/blog/:slug", "index")
  {
  }

  /** The Chi pattern for `blog/[slug].html`, before and after `.html` is cut. */
  lemma ChiSlugTexts()
    ensures RenderToken(Token("slug", false), ChiPreset) == "{slug}"
    ensures "/" + ("blog/" + "{slug}" + ".html") == "/blog/{slug}" + ".html" && !HasSuffix("/blog/{slug}", "index")
  {
  }

  /** `docs/[...path].html`, split around its token, and its Fiber pattern. */
  lemma CatchAllTexts()
    ensures "docs/[...path].html" == "docs/" + TokenText(Token("path", true)) + ".html"
    ensures '[' !in "docs/" && '[' !in ".html"
    ensures RenderToken(Token("path", true), FiberPreset) == "*"
    ensures "/" + ("docs/" + "*" + ".html") == "/docs/*" + ".html" && !HasSuffix("/docs/*", "index")
  {
  }

  /** Under Fiber, `blog/[slug].html` is served at `/blog/:slug` and declares `slug`. */
  lemma FiberSlug(fsr: FSRouter, path: string)
    requires fsr.preset == FiberPreset && path == "blog/[slug].html"
    ensures ParsedRoute(fsr, path) == Route("/blog/:slug", [RouteParam("slug", false)], path)
  {
    var slug := Token("slug", false);
    SlugTexts();
    FiberSlugTexts();
    TrimHtmlPage("/blog/:slug");
    OneTokenRoute(fsr, "blog/", slug, ".html");
  }

  /** Under Chi, the same view is served at `/blog/{slug}`. */
  lemma ChiSlug(fsr: FSRouter, path: string)
    requires fsr.preset == ChiPreset && path == "blog/[slug].html"
    ensures ParsedRoute(fsr, path) == Route("/blog/{slug}", [RouteParam("slug", false)], path)
  {
    var slug := Token("slug", false);
    SlugTexts();
    ChiSlugTexts();
    TrimHtmlPage("/blog/{slug}");
    OneTokenRoute(fsr, "blog/", slug, ".html");
  }

  /** A catch-all `docs/[...path].html` becomes `/docs/` and the wildcard, declaring the nested `path`. */
  lemma FiberCatchAll(fsr: FSRouter, path: string)
    requires fsr.preset == FiberPreset && path == "docs/[...path].html"
    ensures ParsedRoute(fsr, path) == Route("/docs/*", [RouteParam("path", true)], path)
  {
    var rest := Token("path", true);
    CatchAllTexts();
    TrimHtmlPage("/docs/*");
    OneTokenRoute(fsr, "docs/", rest, ".html");
  }

  /** Two tokens between texts without `[` are rendered in place and declared in order. */
  lemma TwoTokenPath(a: string, t1: Token, b: string, t2: Token, c: string, p: Preset)
    requires '[' !in a && '[' !in b && '[' !in c
    requires ValidToken(t1) && ValidToken(t2)
    ensures Render(Tokenize(a + TokenText(t1) + b + TokenText(t2) + c), p)
         == a + RenderToken(t1, p) + b + RenderToken(t2, p) + c
    ensures FindAllParams(a + TokenText(t1) + b + TokenText(t2) + c) == [t1, t2]
  {
    var r1, r2 := RenderToken(t1, p), RenderToken(t2, p);
    var tail := b + TokenText(t2) + c;
    Regroup(a + TokenText(t1) + b, TokenText(t2), c);
    Regroup(a + TokenText(t1), b, TokenText(t2) + c);
    Regroup(b, TokenText(t2), c);
    assert a + TokenText(t1) + b + TokenText(t2) + c == a + TokenText(t1) + tail;
    Regroup(a + r1 + b, r2, c);
    Regroup(a + r1, b, r2 + c);
    Regroup(b, r2, c);
    assert a + r1 + b + r2 + c == a + r1 + (b + r2 + c);
    SkipThenToken(a, t1, tail, p);
    SkipThenToken(b, t2, c, p);
    NoBracketRender(c, p);
    assert [t1] + [t2] == [t1, t2];
  }

  /** The route of a view path holding two tokens, under a safe preset. */
  lemma TwoTokenRoute(fsr: FSRouter, a: string, t1: Token, b: string, t2: Token, c: string)
    requires SafePreset(fsr.preset)
    requires '[' !in a && '[' !in b && '[' !in c
    requires ValidToken(t1) && ValidToken(t2)
    ensures var path := a + TokenText(t1) + b + TokenText(t2) + c;
      ParsedRoute(fsr, path)
      == Route(TrimHtml("/" + (a + RenderToken(t1, fsr.preset) + b + RenderToken(t2, fsr.preset) + c)),
               [ParamOf(t1), ParamOf(t2)], path)
  {
    var path := a + TokenText(t1) + b + TokenText(t2) + c;
    TwoTokenPath(a, t1, b, t2, c, fsr.preset);
    ParsedRouteIsOnePass(fsr, path);
    var pns := DeclaredParams(path);
    assert pns[0] == ParamOf(t1) && pns[1] == ParamOf(t2);
    assert pns == [ParamOf(t1), ParamOf(t2)];
  }

  /** The two-token view path, split around its tokens, and its rendered patterns. */
  lemma TwoTokenTexts()
    ensures "a/[id]/b/[...rest].html"
         == "a/" + TokenText(Token("id", false)) + "/b/" + TokenText(Token("rest", true)) + ".html"
    ensures '[' !in "a/" && '[' !in "/b/" && '[' !in ".html"
    ensures RenderToken(Token("id", false), FiberPreset) == ":id"
    ensures RenderToken(Token("id", false), ChiPreset) == "{id}"
    ensures RenderToken(Token("rest", true), FiberPreset) == "*" && RenderToken(Token("rest", true), ChiPreset) == "*"
    ensures "/" + ("a/" + ":id" + "/b/" + "*" + ".html") == "/a/:id/b/*" + ".html" && !HasSuffix("/a/:id/b/*", "index")
    ensures "/" + ("a/" + "{id}" + "/b/" + "*" + ".html") == "/a/{id}/b/*" + ".html" && !HasSuffix("/a/{id}/b/*", "index")
  {
  }

  /** Under Fiber, `a/[id]/b/[...rest].html` becomes `/a/:id/b/` and the wildcard, declaring `id` then the catch-all `rest`. */
  lemma FiberMixed(fsr: FSRouter, path: string)
    requires fsr.preset == FiberPreset && path == "a/[id]/b/[...rest].html"
    ensures ParsedRoute(fsr, path)
         == Route("/a/:id/b/*", [RouteParam("id", false), RouteParam("rest", true)], path)
  {
    var id, rest := Token("id", false), Token("rest", true);
    TwoTokenTexts();
    TrimHtmlPage("/a/:id/b/*");
    TwoTokenRoute(fsr, "a/", id, "/b/", rest, ".html");
  }

  /** Under Chi, the same view becomes `/a/{id}/b/` and the wildcard. */
  lemma ChiMixed(fsr: FSRouter, path: string)
    requires fsr.preset == ChiPreset && path == "a/[id]/b/[...rest].html"
    ensures ParsedRoute(fsr, path)
         == Route("/a/{id}/b/*", [RouteParam("id", false), RouteParam("rest", true)], path)
  {
    var id, rest := Token("id", false), Token("rest", true);
    TwoTokenTexts();
    TrimHtmlPage("/a/{id}/b/*");
    TwoTokenRoute(fsr, "a/", id, "/b/", rest, ".html");
  }

  /**
   * Realizing the parsed Fiber route gives back `/a/:id/b/` and the
   * wildcard whatever the values: `Realize` looks for `[id]` in the
   * rewritten pattern, where it no longer is.
   */
  lemma FiberMixedRealize(fsr: FSRouter, path: string, params: map<string, string>)
    requires fsr.preset == FiberPreset && path == "a/[id]/b/[...rest].html"
    ensures Realized(ParsedRoute(fsr, path).name, ParsedRoute(fsr, path).paramNames, params) == "/a/:id/b/*"
  {
    FiberMixed(fsr, path);
    RealizeParsedRoute(fsr, path, params);
  }

  /** The malformed view path: a `[` at which no token starts, then no other `[`. */
  lemma MalformedTexts()
    ensures "[a-b].html" == ['['] + "a-b].html" && '[' !in "a-b].html"
    ensures MatchParam("[a-b].html").None?
    ensures "/" + "[a-b].html" == "/[a-b]" + ".html" && !HasSuffix("/[a-b]", "index")
  {
    var s := "[a-b].html";
    assert s[1] == 'a' && s[2] == '-';
    assert s[1..4] != "...";
    AlnumSpanOf(s[1..], "a");
  }

  /** A bracket around something other than a name is no parameter and is kept as written. */
  lemma MalformedToken(fsr: FSRouter, path: string)
    requires path == "[a-b].html"
    ensures ParsedRoute(fsr, path) == Route("/[a-b]", [], path)
  {
    MalformedTexts();
    NoBracketTokenFree("a-b].html");
    TokenFreeCons('[', "a-b].html");
    PlainPathRoute(fsr, path);
    TrimHtmlPage("/[a-b]");
  }

  /**
   * The leftmost copy of one parameter's text, with no second copy after
   * it, gets that parameter's value, or the empty string, in its place;
   * whatever stands before it, a stray `[` included, is kept.
   */
  lemma RealizeOne(prefix: string, pn: RouteParam, rest: string, params: map<string, string>)
    requires forall i :: 0 <= i < |prefix| ==> !(ParamText(pn) <= (prefix + ParamText(pn) + rest)[i..])
    requires !Occurs(ParamText(pn), rest)
    ensures Realized(prefix + ParamText(pn) + rest, [pn], params) == prefix + Lookup(params, pn.name) + rest
  {
    var pattern := ParamText(pn);
    var value := Lookup(params, pn.name);
    ReplaceAllAt(prefix, pattern, value, rest);
    assert [pn][1..] == [];
  }

  /** The pattern `/users/[id]`, split around its parameter, and the texts it realizes to. */
  lemma RealizeTexts()
    ensures "/users/[id]" == "/users/" + ParamText(RouteParam("id", false)) + "" && '[' !in "/users/"
    ensures "/users/" + "5" + "" == "/users/5" && "/users/" + "" + "" == "/users/"
    ensures Lookup(map["id" := "5"], "id") == "5" && Lookup(map[], "id") == ""
  {
  }

  /** `Realize` on a pattern still holding `[id]` puts the value in, or the empty string when it is missing. */
  lemma RealizeByName(r: Route)
    requires r == Route("/users/[id]", [RouteParam("id", false)], "users/[id].html")
    ensures Realized(r.name, r.paramNames, map["id" := "5"]) == "/users/5"
    ensures Realized(r.name, r.paramNames, map[]) == "/users/"
  {
    var pn := RouteParam("id", false);
    RealizeTexts();
    OccursInEmpty(ParamText(pn));
    NoStartWithoutHead("/users/", ParamText(pn), ParamText(pn) + "");
    RealizeOne("/users/", pn, "", map["id" := "5"]);
    RealizeOne("/users/", pn, "", map[]);
  }

  /** `/[a-b]/[id]`: a malformed bracket, then the parameter's own text. */
  lemma StrayBracketTexts()
    ensures "/[a-b]/[id]" == "/[a-b]/" + ParamText(RouteParam("id", false)) + ""
    ensures "/[a-b]/" + "5" + "" == "/[a-b]/5"
    ensures Lookup(map["id" := "5"], "id") == "5"
  {
  }

  /** No copy of `[id]` starts inside `/[a-b]/`, although a `[` does. */
  lemma StrayBracketNoStart()
    ensures var s := "/[a-b]/" + ParamText(RouteParam("id", false)) + "";
      forall i :: 0 <= i < |"/[a-b]/"| ==> !(ParamText(RouteParam("id", false)) <= s[i..])
  {
    var u := ParamText(RouteParam("id", false));
    var s := "/[a-b]/" + u + "";
    forall i | 0 <= i < |"/[a-b]/"|
      ensures !(u <= s[i..])
    {
      if i == 1 {
        assert s[i..][1] == 'a' != u[1];
      } else {
        assert s[i..][0] == s[i] != '[';
      }
    }
  }

  /** A stray `[` before a parameter's text does not stop `Realize` from filling it in. */
  lemma RealizeAfterStrayBracket(r: Route)
    requires r == Route("/[a-b]/[id]", [RouteParam("id", false)], "[a-b]/[id].html")
    ensures Realized(r.name, r.paramNames, map["id" := "5"]) == "/[a-b]/5"
  {
    var pn := RouteParam("id", false);
    StrayBracketTexts();
    StrayBracketNoStart();
    OccursInEmpty(ParamText(pn));
    RealizeOne("/[a-b]/", pn, "", map["id" := "5"]);
  }
}
