# fsrouter in Dafny

A model of the route-loading core of go-fsrouter, a library that turns the
view files under a root directory into routes for an HTTP router.

- Every file matching the include pattern (`**/*.html` by default) is found,
  the matches are sorted, and each is made relative to the root.
- Each relative path is parsed into a `Route`. A bracket token `[name]`
  declares a named parameter. A token `[...name]` declares a catch-all.
  The tokens are collected in order. The path is rewritten for the target
  router by a `Preset`: Fiber writes `:name` and `*`, Chi writes `{name}`
  and `*`. A final `index.html` or `.html` is then cut off.
- `Realize` substitutes values for a route's parameters. `ExtractMap`
  builds a name-to-value map from an accessor.

Modules:

- `Wrappers`: `Option` and `Result`.
- `GoStrings`: the parts of Go's `strings` and `sort` packages the core
  uses. `sort.Strings` is a verified insertion sort. Any sorted permutation
  equals it.
- `Patterns`: the three regular expressions as anchored matchers. It also
  holds a one-pass tokenizer, the presets and the two-pass
  `ReplaceAllString` pipeline. The main theorem says that, for a safe
  preset, the two passes equal one tokenizer-driven rendering. So each
  declared token is rewritten exactly once, and no token text survives.
- `Router`: `FSRouter`, `Route`, `RouteParam`, and `New`. `ParseRoute`
  (whose parameter loop is `CollectParams`),
  `Realize`, `ExtractMap` and `LoadRoutes` are methods with loops. Each is
  proved against a specification function, and lemmas state what those
  functions promise.
- `Scenarios`: the routes usually given as examples, each derived from the
  general lemmas.

`Realize` looks for the bracket texts `[name]` and `[...name]`, which only
the view path holds, but it substitutes into `Route.Name`, the rewritten
pattern (fsrouter.go:64). The model does the same. `Router.RealizeParsedRoute`
proves the consequence: for every route parsed with a safe preset (Fiber
and Chi are safe), `Realize` returns the pattern unchanged whatever values
it is given, and no bracket text is left in its result
(`Router.RealizedLeavesNoToken`) because the pattern holds none to begin
with. On a text that still holds a parameter's brackets, the value does
take their place, even after a malformed bracket (`Scenarios.RealizeOne`,
`Scenarios.RealizeByName`, `Scenarios.RealizeAfterStrayBracket`).

## Model

| member | source | states |
|---|---|---|
| GoStrings.HasPrefix | fsrouter.go:115 | `strings.HasPrefix`: the prefix is an initial piece of the text; what parseRoute reads from it is stated by `Router.SubmatchParam` |
| GoStrings.HasSuffix | fsrouter.go:125-127 | `strings.HasSuffix`: the last characters of the text are the suffix; `GoStrings.TrimSuffix` and `Router.TrimHtml` state what the tests decide |
| GoStrings.TrimSuffix | fsrouter.go:126-128 | with the suffix present, the result followed by the suffix is the input; otherwise the input is returned |
| GoStrings.TrimSuffixOfConcat | fsrouter.go:125-128 | a text ends in what was appended to it, and trimming that gives the text back |
| GoStrings.ReplaceAll | fsrouter.go:68-70 | a text in which the pattern does not occur is returned unchanged |
| GoStrings.ReplaceAllSkip | fsrouter.go:68-70 | text at none of whose positions an occurrence of the pattern starts is copied through, and replacement goes on after it |
| GoStrings.ReplaceAllAt | fsrouter.go:68-70 | the leftmost occurrence of the pattern is replaced by the value, whatever precedes it, and replacement goes on after it |
| GoStrings.NoStartWithoutHead | fsrouter.go:68-70 | no occurrence of the pattern starts in text that lacks the pattern's first character |
| GoStrings.OccursSplit | fsrouter.go:110 | an occurrence starts before a given position or lies wholly after it |
| GoStrings.OccursInEmpty | fsrouter.go:110 | only the empty text occurs in the empty text |
| GoStrings.StrLeq | fsrouter.go:92 | the order `sort.Strings` sorts by: lexicographic by character code; the four lemmas below make it a total order |
| GoStrings.StrLeqReflexive | fsrouter.go:92 | the string order used by the sort is reflexive |
| GoStrings.StrLeqTotal | fsrouter.go:92 | any two strings are comparable |
| GoStrings.StrLeqAntisymmetric | fsrouter.go:92 | strings below each other are equal |
| GoStrings.StrLeqTransitive | fsrouter.go:92 | the order is transitive |
| GoStrings.SortStrings | fsrouter.go:92 | the result is sorted and a permutation of the matches |
| GoStrings.SortedPermutationUnique | fsrouter.go:92 | two sorted permutations of the same matches are equal, so any correct sort gives the same order |
| Patterns.AlnumSpan | fsrouter.go:14 | the length of the longest run of letters and digits at the start, as the greedy `[a-zA-Z0-9]+` takes it |
| Patterns.AlnumSpanOf | fsrouter.go:14 | a name followed by a non-alphanumeric character is exactly the run taken |
| Patterns.MatchSingle | fsrouter.go:16 | a match is a non-empty alphanumeric name written as `[name]` at the start of the text |
| Patterns.MatchNested | fsrouter.go:17 | a match is a name written as `[...name]` at the start of the text |
| Patterns.MatchParam | fsrouter.go:14 | a match is a valid token whose text starts the input |
| Patterns.MatchSingleComplete | fsrouter.go:16 | every `[name]` at the start is found, with that name |
| Patterns.MatchNestedComplete | fsrouter.go:17 | every `[...name]` at the start is found, with that name |
| Patterns.MatchParamComplete | fsrouter.go:14 | every token at the start is found, nested or not |
| Patterns.GrammarsAgree | fsrouter.go:14-17 | the single and nested grammars never both match, and paramRegex matches exactly where one of them does, with the same name and kind |
| Patterns.NoMatchWithoutBracket | fsrouter.go:14-17 | no grammar matches a text that does not start with `[` |
| Patterns.Tokenize | fsrouter.go:110 | the pieces, written back out, give the input, and every parameter piece is a valid token |
| Patterns.FindAllStringSubmatch | fsrouter.go:110 | one submatch per reported token, in order: the whole text, group 1 (the name, after `...` for a catch-all) and group 2 (the name); `Router.SubmatchParam` and `Router.SubmatchParamAt` state what is read from it |
| Patterns.FindAllParams | fsrouter.go:110 | every match reported by FindAllStringSubmatch is a valid token |
| Patterns.StartsWithToken | fsrouter.go:14 | a text starting with a token's text is matched there with that token |
| Patterns.NoTokenInside | fsrouter.go:14 | no token starts inside the text of a token matched at the head, so matches cannot overlap |
| Patterns.FoundIffPresent | fsrouter.go:110 | a valid token is reported by FindAllStringSubmatch exactly when its text occurs in the path |
| Patterns.TokenizeSkip | fsrouter.go:110-122 | text without `[` is kept as it is in front of what follows and declares nothing |
| Patterns.TokenizeToken | fsrouter.go:110-122 | a token at the head is declared once and rendered once, in front of what follows |
| Patterns.FiberPreset | fsrouter.go:25-28 | `:$1` as the prefix `:`, the name and an empty suffix, and the wildcard `*`; `Patterns.BuiltinPresetsAreSafe` states that it is safe |
| Patterns.ChiPreset | fsrouter.go:30-33 | `{$1}` as the prefix `{`, the name and the suffix `}`, and the wildcard `*`; `Patterns.BuiltinPresetsAreSafe` states that it is safe |
| Patterns.NamedReplacement | fsrouter.go:121 | `$1` in the named template expanded to the captured name, between the template's prefix and suffix |
| Patterns.ReplaceSingles | fsrouter.go:121 | `paramRegexSingle.ReplaceAllString`: each leftmost `[name]`, not overlapping the previous one, becomes the expanded template; `Patterns.SinglesSkip` and `Patterns.RewriteIsOnePass` state its effect |
| Patterns.ReplaceNested | fsrouter.go:122 | `paramRegexNested.ReplaceAllString`: each leftmost `[...name]`, not overlapping the previous one, becomes the wildcard; `Patterns.NestedSkip` and `Patterns.RewriteIsOnePass` state its effect |
| Patterns.Rewrite | fsrouter.go:121-122 | the named pass, then the wildcard pass; `Patterns.RewriteIsOnePass`, `Patterns.RenderIsTokenFree` and `Patterns.TokenFreeUnchanged` state what it gives |
| Patterns.BuiltinPresetsAreSafe | fsrouter.go:25-33 | the Fiber and Chi presets cannot form or complete a token |
| Patterns.RenderTokenIsSafe | fsrouter.go:119-122 | a safe preset renders every token to text that starts no token and holds no `[` |
| Patterns.SinglesSkip | fsrouter.go:121 | the named-parameter pass copies text without `[` and goes on after it |
| Patterns.NestedSkip | fsrouter.go:122 | the wildcard pass copies text without `[` and goes on after it |
| Patterns.RewriteIsOnePass | fsrouter.go:119-122 | for a safe preset, the two ReplaceAllString passes equal rendering the one-pass tokenization |
| Patterns.RenderIsTokenFree | fsrouter.go:120-122 | for a safe preset, no token text occurs in the rendered path |
| Patterns.TokenFreeUnchanged | fsrouter.go:108-122 | a path with no token declares nothing and both passes leave it unchanged |
| Patterns.NoBracketTokenFree | fsrouter.go:14-17 | a text without `[` holds no token |
| Patterns.TokenFreeCons | fsrouter.go:14-17 | a character at which no token starts keeps a token-free text token-free |
| Router.New | fsrouter.go:42-49 | the router keeps the root and preset and includes `**/*.html` |
| Router.TrimHtml | fsrouter.go:124-129 | a final `index.html` is cut off; otherwise a final `.html` is; otherwise the pattern is unchanged |
| Router.TrimHtmlIndex | fsrouter.go:125-126 | a pattern ending in `index.html` loses exactly that |
| Router.TrimHtmlPage | fsrouter.go:127-128 | a pattern ending in `.html` but not `index.html` loses exactly `.html` |
| Router.DeclaredParams | fsrouter.go:108-117 | one parameter per reported token, left to right, with its name and kind; `Router.CollectParams`, `Router.DeclaredParamIsToken` and `Router.DeclaredIffPresent` state what it holds |
| Router.SubmatchParam | fsrouter.go:112-116 | a token's group 2 is its name, and its group 1 starts with `...` exactly when it is a catch-all |
| Router.SubmatchParamAt | fsrouter.go:110-117 | the i-th submatch yields the i-th declared parameter |
| Router.CollectParams | fsrouter.go:108-117 | the collected parameters are the path's tokens in order, each with its name and kind |
| Router.ParsedRoute | fsrouter.go:107-131 | the route parseRoute returns: the trimmed rewrite of `/` plus the path, the declared parameters and the path; the `Router.ParsedRoute*` lemmas, `Router.PlainPathRoute` and `Router.ParsedNameIsTokenFree` state its properties |
| Router.ParseRoute | fsrouter.go:107-132 | the route is the parsed route of the path: its declared parameters in order with their kinds, the rewritten and trimmed pattern, and the path |
| Router.ParsedRouteShape | fsrouter.go:120-131 | the pattern is non-empty and starts with `/`, and the route keeps its path |
| Router.ParsedRouteIsOnePass | fsrouter.go:119-129 | for a safe preset, the pattern is `/` plus the path with each token rendered once, trimmed |
| Router.PlainPathRoute | fsrouter.go:108-131 | a path with no token declares nothing and its pattern is `/` plus the path, trimmed |
| Router.ParsedNameIsTokenFree | fsrouter.go:119-129 | for a safe preset, no token text occurs in the pattern |
| Router.ParamTextOf | fsrouter.go:66-70 | the text Realize replaces for a parameter is the text of the token it was declared by |
| Router.DeclaredParamIsToken | fsrouter.go:110-117 | each declared parameter comes from a valid token, its bracket text is that token's text, and that text occurs in the path |
| Router.DeclaredIffPresent | fsrouter.go:108-117 | a parameter is declared exactly when its `[name]` or `[...name]` text occurs in the path |
| Router.Lookup | fsrouter.go:68-70 | Go's map index `params[pn.Name]`: the stored value, or the empty string for a missing key |
| Router.Realized | fsrouter.go:66-72 | each parameter's text replaced in turn by its value; `Router.RealizedUnchanged`, `Scenarios.RealizeOne` and `Router.RealizeParsedRoute` state what it gives |
| Router.Realize | fsrouter.go:63-75 | the result is the pattern with each declared parameter's text replaced, in order, by its value or the empty string |
| Router.RealizedUnchanged | fsrouter.go:66-72 | parameters whose texts do not occur change nothing |
| Router.RealizeParsedRoute | fsrouter.go:63-75 | for a route parsed with a safe preset, Realize returns the pattern unchanged |
| Router.RealizedLeavesNoToken | fsrouter.go:63-75 | for a route parsed with a safe preset, no declared parameter's text remains after Realize |
| Router.NameSet | fsrouter.go:79-81 | a name is in the set exactly when some declared parameter has it |
| Router.ExtractMap | fsrouter.go:77-84 | the keys are exactly the declared names, each mapped to the accessor's value for it |
| Router.LoadRoutes | fsrouter.go:86-105 | a glob error is returned alone; otherwise the sorted matches give one parsed relative route each at the same index, or the error of the first match that cannot be made relative |
| Router.LoadedFrom | fsrouter.go:92-104 | loading the sorted matches gives one parsed relative route per match at its index, or the error of the first match that cannot be made relative; `Router.LoadedFromIsDetermined` shows that it fixes the outcome |
| Router.AgreeStep | fsrouter.go:94-102 | storing each route at its own index keeps every earlier route in place |
| Router.LoadedAll | fsrouter.go:94-104 | when every match is relative and each route is parsed from its match, loading succeeds with those routes |
| Router.LoadedFirstError | fsrouter.go:95-99 | the error of the first match that cannot be made relative is the outcome |
| Router.AllRelativeLoads | fsrouter.go:95-101 | when every match can be made relative, loading succeeds |
| Router.LoadedFromIsDetermined | fsrouter.go:86-105 | the outcome of loading is determined by the matches, so loading twice over unchanged files gives the same result |
| Scenarios.RootIndex | fsrouter.go:120-131 | `index.html` is served at `/` and declares nothing |
| Scenarios.DirectoryIndex | fsrouter.go:120-131 | `blog/index.html` is served at `/blog/` |
| Scenarios.PlainPage | fsrouter.go:120-131 | `about.html` is served at `/about` |
| Scenarios.IndexSuffixInName | fsrouter.go:125-126 | the suffix test is on text: `blogindex.html` is served at `/blog` |
| Scenarios.IndexTokenCut | fsrouter.go:120-126 | the suffix test cuts into a rendered parameter: under Fiber, `[index].html` is served at `/:` and still declares `index` |
| Scenarios.OneTokenPath | fsrouter.go:110-122 | one token between texts without `[` is rendered in place and is the only declaration |
| Scenarios.OneTokenRoute | fsrouter.go:107-131 | the route of a path with one token under a safe preset |
| Scenarios.FiberSlug | fsrouter.go:107-131 | under Fiber, `blog/[slug].html` is `/blog/:slug` with parameter `slug` |
| Scenarios.ChiSlug | fsrouter.go:107-131 | under Chi, `blog/[slug].html` is `/blog/{slug}` |
| Scenarios.FiberCatchAll | fsrouter.go:107-131 | under Fiber, `docs/[...path].html` is `/docs/*` with the nested parameter `path` |
| Patterns.SkipThenToken | fsrouter.go:110-122 | text without `[`, a token, and a tail render to the text, the rendered token and the rendered tail, and declare the token first |
| Patterns.NoBracketRender | fsrouter.go:110-122 | text without `[` renders to itself and declares nothing |
| Scenarios.TwoTokenPath | fsrouter.go:110-122 | two tokens between texts without `[` are rendered in place and declared in order |
| Scenarios.TwoTokenRoute | fsrouter.go:107-131 | the route of a path with two tokens under a safe preset |
| Scenarios.FiberMixed | fsrouter.go:107-131 | under Fiber, `a/[id]/b/[...rest].html` declares `id` then the catch-all `rest`, each rendered exactly once |
| Scenarios.ChiMixed | fsrouter.go:107-131 | under Chi, the same path renders `id` as `{id}` |
| Scenarios.FiberMixedRealize | fsrouter.go:63-75 | realizing that parsed route returns its pattern whatever the values |
| Scenarios.MalformedToken | fsrouter.go:107-131 | `[a-b].html` holds no token; it declares nothing and is kept as written |
| Scenarios.RealizeOne | fsrouter.go:63-75 | the leftmost copy of one parameter's brackets, with no copy after it, gets that parameter's value, or the empty string, in its place, whatever precedes it |
| Scenarios.RealizeByName | fsrouter.go:63-75 | `/users/[id]` realizes to `/users/5` with a value and `/users/` without one |
| Scenarios.RealizeAfterStrayBracket | fsrouter.go:63-75 | a malformed `[a-b]` before `[id]` is kept and `[id]` is filled in: `/[a-b]/[id]` realizes to `/[a-b]/5` |

## Left out

- template.go, the template cache: its locking, file reading and rendering are concurrency and I/O, so it is not part of this model.
- `zglob.Glob` with `filepath.Join`, and `filepath.Rel`: these are function parameters of `Router.LoadRoutes` returning a `Result`; their own behaviour (glob syntax, path cleaning) is not modelled.
- Preset templates: `NamedParamReplacement` is modelled as a prefix, the name and a suffix (`:$1` and `{$1}` have this shape), and `WildcardReplacement` as literal text. Go's general `$` expansion (`$1x`, `${1}`, `$$`) is not modelled.
- Patterns.RewriteIsOnePass: stated only for safe presets. With a custom replacement that is empty, starts with a letter, digit, `.` or `]`, or holds `[`, the second pass may rewrite text the first produced or brought together; the model still computes that case through `Rewrite`, but no one-pass theorem is given for it.
- Router.ParsedRouteIsOnePass: stated only for safe presets, for the same reason.
- Router.LoadRoutes: the matches are sorted as returned by the glob, before they are made relative (fsrouter.go:92); that this is also the order of the relative paths when every match starts with the same root is not proved.
- Router.ExtractMap: the accessor is a pure function, so how often and in which order it is called is not modelled.
- Go strings are byte strings; they are sequences of characters here, compared by character code. For valid UTF-8 this is the same order as Go's byte order, but the encoding itself is not modelled.
- GoStrings.ReplaceAll: an empty pattern is not modelled; the core only ever replaces non-empty bracket texts.
- Errors are carried as their message strings; Go's `nil` versus empty slice is not distinguished.
