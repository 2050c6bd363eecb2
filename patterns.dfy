/**
 * The bracket-parameter grammar of file-system routes and the three regular
 * expressions built from it:
 *   paramRegex        `\[((?:\.\.\.)?([a-zA-Z0-9]+))\]`   (either kind)
 *   paramRegexSingle  `\[([a-zA-Z0-9]+)\]`                (plain `[name]`)
 *   paramRegexNested  `\[\.\.\.([a-zA-Z0-9]+)\]`          (catch-all `[...name]`)
 * Each is modelled by an anchored matcher (does a token start at the head of
 * the string?) and the scans Go's `FindAllStringSubmatch` and
 * `ReplaceAllString` perform with it: leftmost, non-overlapping, one
 * character further on when nothing matches. A preset is the pair of
 * replacement templates the rewrite uses.
 */
module Patterns {
  import opened Wrappers
  import opened GoStrings

  /** The class `[a-zA-Z0-9]`. */
  predicate IsAlnum(c: char) {
    'a' <= c <= 'z' || 'A' <= c <= 'Z' || '0' <= c <= '9'
  }

  /** `[a-zA-Z0-9]+` */
  predicate IsName(s: string) {
    |s| > 0 && forall i :: 0 <= i < |s| ==> IsAlnum(s[i])
  }

  /** A character that can stand after the opening `[` of a token. */
  predicate IsTokenTail(c: char) {
    c == '.' || c == ']' || IsAlnum(c)
  }

  /** A declared parameter: `[name]`, or `[...name]` when nested. */
  datatype Token = Token(name: string, nested: bool)

  predicate ValidToken(t: Token) {
    IsName(t.name)
  }

  /** The text a token is written as in a file path. */
  function TokenText(t: Token): string {
    "[" + (if t.nested then "..." else "") + t.name + "]"
  }

  /** Length of the longest alphanumeric prefix: what a greedy `[a-zA-Z0-9]+` consumes. */
  function AlnumSpan(s: string): (k: nat)
    ensures k <= |s|
    ensures forall i :: 0 <= i < k ==> IsAlnum(s[i])
    ensures k < |s| ==> !IsAlnum(s[k])
  {
    if |s| == 0 || !IsAlnum(s[0]) then 0 else 1 + AlnumSpan(s[1..])
  }

  /** An alphanumeric run followed by a non-alphanumeric character is the whole span. */
  lemma {:induction false} AlnumSpanOf(s: string, n: string)
    requires |n| < |s| && n <= s
    requires forall i :: 0 <= i < |n| ==> IsAlnum(n[i])
    requires !IsAlnum(s[|n|])
    ensures AlnumSpan(s) == |n|
    decreases |n|
  {
    if |n| > 0 {
      AlnumSpanOf(s[1..], n[1..]);
    }
  }

  /** paramRegexSingle anchored at the head of `s`; the result is the captured name. */
  function MatchSingle(s: string): (r: Option<string>)
    ensures r.Some? ==> IsName(r.value) && "[" + r.value + "]" <= s
  {
    if |s| > 0 && s[0] == '[' then
      var k := AlnumSpan(s[1..]);
      if 0 < k && 1 + k < |s| && s[1 + k] == ']' then
        assert s[..k + 2] == "[" + s[1..1 + k] + "]";
        Some(s[1..1 + k])
      else None
    else None
  }

  /** paramRegexNested anchored at the head of `s`; the result is the captured name. */
  function MatchNested(s: string): (r: Option<string>)
    ensures r.Some? ==> IsName(r.value) && "[..." + r.value + "]" <= s
  {
    if |s| >= 4 && s[..4] == "[..." then
      var k := AlnumSpan(s[4..]);
      if 0 < k && 4 + k < |s| && s[4 + k] == ']' then
        assert s[..k + 5] == "[..." + s[4..4 + k] + "]";
        Some(s[4..4 + k])
      else None
    else None
  }

  /** The parts a token's text is made of, by position. */
  lemma TokenTextParts(t: Token)
    ensures var d := if t.nested then 3 else 0;
      && |TokenText(t)| == |t.name| + d + 2
      && TokenText(t)[0] == '['
      && TokenText(t)[1..1 + d] == (if t.nested then "..." else "")
      && TokenText(t)[1 + d..1 + d + |t.name|] == t.name
      && TokenText(t)[1 + d + |t.name|] == ']'
  {
    var d := if t.nested then 3 else 0;
    var dots := if t.nested then "..." else "";
    var u := TokenText(t);
    assert u == "[" + dots + t.name + "]";
    assert u[1..1 + d] == dots;
    assert u[1 + d..1 + d + |t.name|] == t.name;
  }

  /** A slice of a prefix of `s` is the same slice of `s`. */
  lemma PrefixSlice(u: string, s: string, i: nat, j: nat)
    requires u <= s && i <= j <= |u|
    ensures s[i..j] == u[i..j]
  {
  }

  /** The text read off the head of `s` is the text of the token it names. */
  lemma TokenTextAt(s: string, dots: nat, k: nat)
    requires |s| > 0 && s[0] == '['
    requires dots == 0 || (dots == 3 && |s| >= 4 && s[1..4] == "...")
    requires 1 + dots + k < |s| && s[1 + dots + k] == ']'
    ensures s[..dots + k + 2] == TokenText(Token(s[1 + dots..1 + dots + k], dots == 3))
  {
    var t := Token(s[1 + dots..1 + dots + k], dots == 3);
    TokenTextParts(t);
    var u := TokenText(t);
    var v := s[..dots + k + 2];
    assert |u| == |v|;
    forall i | 0 <= i < |u| ensures u[i] == v[i] {
      if i == 0 {
      } else if i < 1 + dots {
        assert u[i] == u[1..1 + dots][i - 1];
        assert s[1..1 + dots] == s[1..4] || dots == 0;
      } else if i < 1 + dots + k {
        assert u[i] == u[1 + dots..1 + dots + k][i - 1 - dots];
      }
    }
  }

  /**
   * paramRegex anchored at the head of `s`. The optional group `(?:\.\.\.)?`
   * is greedy; when it is taken and the rest fails, leaving it out fails too,
   * because `.` is not alphanumeric.
   */
  function MatchParam(s: string): (r: Option<Token>)
    ensures r.Some? ==> ValidToken(r.value) && TokenText(r.value) <= s
  {
    if |s| > 0 && s[0] == '[' then
      var dots := if |s| >= 4 && s[1..4] == "..." then 3 else 0;
      var k := AlnumSpan(s[1 + dots..]);
      if 0 < k && 1 + dots + k < |s| && s[1 + dots + k] == ']' then
        TokenTextAt(s, dots, k);
        Some(Token(s[1 + dots..1 + dots + k], dots == 3))
      else None
    else None
  }

  /** paramRegexSingle finds every plain token written at the head of `s`. */
  lemma MatchSingleComplete(s: string, n: string)
    requires IsName(n) && "[" + n + "]" <= s
    ensures MatchSingle(s) == Some(n)
  {
    AlnumSpanOf(s[1..], n);
    assert s[1..1 + |n|] == n;
  }

  /** paramRegexNested finds every catch-all token written at the head of `s`. */
  lemma MatchNestedComplete(s: string, n: string)
    requires IsName(n) && "[..." + n + "]" <= s
    ensures MatchNested(s) == Some(n)
  {
    AlnumSpanOf(s[4..], n);
    assert s[4..4 + |n|] == n;
  }

  /** paramRegex finds every token, of either kind, written at the head of `s`. */
  lemma MatchParamComplete(s: string, t: Token)
    requires ValidToken(t) && TokenText(t) <= s
    ensures MatchParam(s) == Some(t)
  {
    var u := TokenText(t);
    var d := if t.nested then 3 else 0;
    var n := |t.name|;
    TokenTextParts(t);
    PrefixSlice(u, s, 1, 1 + d);
    PrefixSlice(u, s, 1 + d, 1 + d + n);
    assert s[0] == '[' && s[1 + d + n] == ']';
    if !t.nested {
      assert s[1] == t.name[0];
      assert !(|s| >= 4 && s[1..4] == "...");
    } else {
      assert s[1..4] == "...";
    }
    AlnumSpanOf(s[1 + d..], t.name);
  }


  /**
   * The single and the catch-all grammar never both match, and paramRegex
   * matches exactly when one of them does, with the same name and with
   * `nested` telling which.
   */
  lemma GrammarsAgree(s: string)
    ensures MatchSingle(s).None? || MatchNested(s).None?
    ensures MatchSingle(s).Some? ==> MatchParam(s) == Some(Token(MatchSingle(s).value, false))
    ensures MatchNested(s).Some? ==> MatchParam(s) == Some(Token(MatchNested(s).value, true))
    ensures MatchParam(s).Some? && !MatchParam(s).value.nested ==> MatchSingle(s) == Some(MatchParam(s).value.name)
    ensures MatchParam(s).Some? && MatchParam(s).value.nested ==> MatchNested(s) == Some(MatchParam(s).value.name)
  {
    match MatchSingle(s)
    case Some(n) =>
      MatchParamComplete(s, Token(n, false));
      assert s[1] == n[0];
    case None =>
    match MatchNested(s)
    case Some(n) => MatchParamComplete(s, Token(n, true));
    case None =>
    match MatchParam(s)
    case Some(t) =>
      if t.nested { MatchNestedComplete(s, t.name); } else { MatchSingleComplete(s, t.name); }
    case None =>
  }

  // ---------------------------------------------------------------------
  // The leftmost scan with paramRegex, as a tokenizer

  /** A path is cut into tokens and the characters between them. */
  datatype Piece = Lit(c: char) | Param(t: Token)

  function PieceText(q: Piece): string {
    match q
    case Lit(c) => [c]
    case Param(t) => TokenText(t)
  }

  /** Writes the pieces back as text. */
  function Unparse(ps: seq<Piece>): string {
    if |ps| == 0 then [] else PieceText(ps[0]) + Unparse(ps[1..])
  }

  /**
   * The scan `paramRegex.FindAll…(s, -1)` performs: at each position the
   * leftmost match is taken and the scan resumes after it; where nothing
   * matches, one character is kept as it is.
   */
  function Tokenize(s: string): (ps: seq<Piece>)
    ensures Unparse(ps) == s
    ensures forall q :: q in ps && q.Param? ==> ValidToken(q.t)
    decreases |s|
  {
    if |s| == 0 then []
    else match MatchParam(s)
      case Some(t) =>
        var rest := Tokenize(s[|TokenText(t)|..]);
        assert ([Param(t)] + rest)[1..] == rest;
        [Param(t)] + rest
      case None =>
        var rest := Tokenize(s[1..]);
        assert ([Lit(s[0])] + rest)[1..] == rest;
        [Lit(s[0])] + rest
  }

  /** The tokens among the pieces, in order. */
  function Params(ps: seq<Piece>): (ts: seq<Token>)
    ensures forall t :: t in ts ==> Param(t) in ps
  {
    if |ps| == 0 then []
    else (if ps[0].Param? then [ps[0].t] else []) + Params(ps[1..])
  }

  /** The tokens `paramRegex.FindAllStringSubmatch(s, -1)` reports, left to right. */
  function FindAllParams(s: string): (ts: seq<Token>)
    ensures forall t :: t in ts ==> ValidToken(t)
  {
    Params(Tokenize(s))
  }

  /** One element of `FindAllStringSubmatch`'s result: the whole match, group 1 and group 2. */
  datatype Submatch = Submatch(full: string, group1: string, group2: string)

  function SubmatchOf(t: Token): Submatch {
    Submatch(TokenText(t), (if t.nested then "..." else "") + t.name, t.name)
  }

  /** `paramRegex.FindAllStringSubmatch(s, -1)` */
  function FindAllStringSubmatch(s: string): seq<Submatch> {
    var ts := FindAllParams(s);
    seq(|ts|, i requires 0 <= i < |ts| => SubmatchOf(ts[i]))
  }

  // ---------------------------------------------------------------------
  // Presets and the two replacement passes

  /**
   * The replacement templates of a preset. The named template is
   * `namedPrefix + "$1" + namedSuffix`, `$1` standing for the captured name;
   * the wildcard template is literal text.
   */
  datatype Preset = Preset(namedPrefix: string, namedSuffix: string, wildcard: string)

  /** Fiber's `":$1"` and `"*"`. */
  const FiberPreset := Preset(":", "", "*")

  /** Chi's `"{$1}"` and `"*"`. */
  const ChiPreset := Preset("{", "}", "*")

  /** The named template expanded for `name`. */
  function NamedReplacement(p: Preset, name: string): string {
    p.namedPrefix + name + p.namedSuffix
  }

  /** `paramRegexSingle.ReplaceAllString(s, named template)` */
  function ReplaceSingles(s: string, p: Preset): string
    decreases |s|
  {
    if |s| == 0 then []
    else match MatchSingle(s)
      case Some(n) => NamedReplacement(p, n) + ReplaceSingles(s[|n| + 2..], p)
      case None => [s[0]] + ReplaceSingles(s[1..], p)
  }

  /** `paramRegexNested.ReplaceAllString(s, wildcard template)` */
  function ReplaceNested(s: string, p: Preset): string
    decreases |s|
  {
    if |s| == 0 then []
    else match MatchNested(s)
      case Some(n) => p.wildcard + ReplaceNested(s[|n| + 5..], p)
      case None => [s[0]] + ReplaceNested(s[1..], p)
  }

  /** The rewrite of a route: the plain tokens first, then the catch-all ones. */
  function Rewrite(s: string, p: Preset): string {
    ReplaceNested(ReplaceSingles(s, p), p)
  }

  /** What one token becomes under a preset. */
  function RenderToken(t: Token, p: Preset): string {
    if t.nested then p.wildcard else NamedReplacement(p, t.name)
  }

  /** Every token rendered by the preset, every other character kept. */
  function Render(ps: seq<Piece>, p: Preset): string {
    if |ps| == 0 then []
    else
      (match ps[0] case Lit(c) => [c] case Param(t) => RenderToken(t, p)) + Render(ps[1..], p)
  }

  /**
   * A replacement that cannot take part in a token: it starts with a
   * character that cannot follow `[` in a token, and holds no `[`.
   */
  predicate SafeReplacement(r: string) {
    |r| > 0 && !IsTokenTail(r[0]) && '[' !in r
  }

  /** A preset whose output can neither complete nor start a token. */
  predicate SafePreset(p: Preset) {
    SafeReplacement(p.namedPrefix) && '[' !in p.namedSuffix && SafeReplacement(p.wildcard)
  }

  lemma BuiltinPresetsAreSafe()
    ensures SafePreset(FiberPreset) && SafePreset(ChiPreset)
  {
  }

  /** A safe preset renders every valid token as a safe replacement. */
  lemma RenderTokenIsSafe(t: Token, p: Preset)
    requires SafePreset(p) && ValidToken(t)
    ensures SafeReplacement(RenderToken(t, p))
  {
    if !t.nested {
      assert forall i :: 0 <= i < |t.name| ==> t.name[i] != '[';
    }
  }

  // ---------------------------------------------------------------------
  // The two passes rewrite each token once

  /** No token of any kind starts at a character other than `[`. */
  lemma NoMatchWithoutBracket(s: string)
    requires |s| > 0 && s[0] != '['
    ensures MatchSingle(s).None? && MatchNested(s).None? && MatchParam(s).None?
  {
  }

  /** Both passes copy a character other than `[`. */
  lemma PassesCopyChar(c: char, z: string, p: Preset)
    requires c != '['
    ensures ReplaceSingles([c] + z, p) == [c] + ReplaceSingles(z, p)
    ensures ReplaceNested([c] + z, p) == [c] + ReplaceNested(z, p)
  {
    var x := [c] + z;
    assert x[0] == c && x[1..] == z;
    NoMatchWithoutBracket(x);
  }

  /** Characters other than `[` pass the plain-token pass unchanged. */
  lemma {:induction false} SinglesSkip(u: string, y: string, p: Preset)
    requires '[' !in u
    ensures ReplaceSingles(u + y, p) == u + ReplaceSingles(y, p)
    decreases |u|
  {
    if |u| == 0 {
      assert u + y == y;
    } else {
      SplitHead(u, y, ReplaceSingles(y, p));
      SinglesSkip(u[1..], y, p);
      PassesCopyChar(u[0], u[1..] + y, p);
    }
  }

  /** Characters other than `[` pass the catch-all pass unchanged. */
  lemma {:induction false} NestedSkip(u: string, y: string, p: Preset)
    requires '[' !in u
    ensures ReplaceNested(u + y, p) == u + ReplaceNested(y, p)
    decreases |u|
  {
    if |u| == 0 {
      assert u + y == y;
    } else {
      SplitHead(u, y, ReplaceNested(y, p));
      NestedSkip(u[1..], y, p);
      PassesCopyChar(u[0], u[1..] + y, p);
    }
  }

  /**
   * The plain-token pass either starts its output with the first character
   * of the named replacement, or keeps the first character of its input and
   * goes on with the rest.
   */
  lemma SinglesHead(y: string, p: Preset)
    requires |y| > 0
    requires SafePreset(p)
    ensures |ReplaceSingles(y, p)| > 0
    ensures || ReplaceSingles(y, p)[0] == p.namedPrefix[0]
            || (ReplaceSingles(y, p)[0] == y[0] && ReplaceSingles(y, p)[1..] == ReplaceSingles(y[1..], p))
  {
    match MatchSingle(y)
    case Some(n) =>
    case None =>
      assert ReplaceSingles(y, p) == [y[0]] + ReplaceSingles(y[1..], p);
  }

  /**
   * Text made of characters that can follow `[` in a token, found at the
   * head of the plain-token pass's output, was already at the head of its
   * input: the safe named replacement cannot supply such text.
   */
  lemma {:induction false} SinglesKeepTokenTail(v: string, y: string, p: Preset)
    requires SafePreset(p)
    requires forall i :: 0 <= i < |v| ==> IsTokenTail(v[i])
    requires v <= ReplaceSingles(y, p)
    ensures v <= y
    decreases |y|
  {
    if |v| > 0 {
      assert |y| > 0;
      SinglesHead(y, p);
      assert v[0] == ReplaceSingles(y, p)[0];
      SinglesKeepTokenTail(v[1..], y[1..], p);
    }
  }

  /**
   * A catch-all token at the head of the plain-token pass's output over
   * `s` (first character kept) was already a catch-all token of `s`.
   */
  lemma NestedAfterSingles(s: string, p: Preset, n: string)
    requires SafePreset(p) && |s| > 0 && IsName(n)
    requires "[..." + n + "]" <= [s[0]] + ReplaceSingles(s[1..], p)
    ensures TokenText(Token(n, true)) <= s
  {
    var u := TokenText(Token(n, true));
    assert u == "[..." + n + "]";
    ConsPrefix(u, s[0], ReplaceSingles(s[1..], p));
    TokenTextTail(Token(n, true));
    SinglesKeepTokenTail(u[1..], s[1..], p);
    ConsPrefixBack(u, s);
  }


  /** The head of the rewrite of `s` when a plain token starts `s`. */
  lemma RewriteAtSingle(s: string, t: Token, p: Preset)
    requires SafePreset(p) && ValidToken(t) && !t.nested && TokenText(t) <= s
    ensures Rewrite(s, p) == RenderToken(t, p) + Rewrite(s[|TokenText(t)|..], p)
  {
    MatchSingleComplete(s, t.name);
    RenderTokenIsSafe(t, p);
    NestedSkip(RenderToken(t, p), ReplaceSingles(s[|TokenText(t)|..], p), p);
  }

  /** The plain-token pass copies a catch-all token at the head of `s`. */
  lemma SinglesAtNested(s: string, t: Token, p: Preset)
    requires ValidToken(t) && t.nested && TokenText(t) <= s
    ensures ReplaceSingles(s, p) == TokenText(t) + ReplaceSingles(s[|TokenText(t)|..], p)
  {
    var text := TokenText(t);
    var rest := s[|text|..];
    var r := ReplaceSingles(rest, p);
    PrefixSplit(text, s);
    GrammarsAgree(s);
    MatchParamComplete(s, t);
    assert ReplaceSingles(s, p) == [s[0]] + ReplaceSingles(s[1..], p);
    SplitHead(text, rest, r);
    TokenTextTail(t);
    SinglesSkip(text[1..], rest, p);
  }

  /** The catch-all pass replaces a catch-all token at the head by the wildcard. */
  lemma NestedAtToken(t: Token, z: string, p: Preset)
    requires ValidToken(t) && t.nested
    ensures ReplaceNested(TokenText(t) + z, p) == p.wildcard + ReplaceNested(z, p)
  {
    var x := TokenText(t) + z;
    assert TokenText(t) == "[..." + t.name + "]";
    MatchNestedComplete(x, t.name);
    assert x[|t.name| + 5..] == z;
  }

  /** The head of the rewrite of `s` when a catch-all token starts `s`. */
  lemma RewriteAtNested(s: string, t: Token, p: Preset)
    requires SafePreset(p) && ValidToken(t) && t.nested && TokenText(t) <= s
    ensures Rewrite(s, p) == RenderToken(t, p) + Rewrite(s[|TokenText(t)|..], p)
  {
    SinglesAtNested(s, t, p);
    NestedAtToken(t, ReplaceSingles(s[|TokenText(t)|..], p), p);
  }


  /** The head of the rewrite of `s` when no token starts `s`. */
  lemma RewriteAtLiteral(s: string, p: Preset)
    requires SafePreset(p) && |s| > 0 && MatchParam(s).None?
    ensures Rewrite(s, p) == [s[0]] + Rewrite(s[1..], p)
  {
    GrammarsAgree(s);
    var x := [s[0]] + ReplaceSingles(s[1..], p);
    assert ReplaceSingles(s, p) == x;
    if MatchNested(x).Some? {
      NestedAfterSingles(s, p, MatchNested(x).value);
      MatchParamComplete(s, Token(MatchNested(x).value, true));
    }
    assert x[1..] == ReplaceSingles(s[1..], p);
  }

  /**
   * For a safe preset, replacing the plain tokens and then the catch-all
   * tokens is the same as rendering each token the one-pass tokenizer finds,
   * once, and keeping every other character: the first pass creates no token
   * for the second and destroys none it should see.
   */
  lemma {:induction false} RewriteIsOnePass(s: string, p: Preset)
    requires SafePreset(p)
    ensures Rewrite(s, p) == Render(Tokenize(s), p)
    decreases |s|
  {
    if |s| > 0 {
      match MatchParam(s)
      case Some(t) =>
        var rest := s[|TokenText(t)|..];
        RewriteIsOnePass(rest, p);
        if t.nested { RewriteAtNested(s, t, p); } else { RewriteAtSingle(s, t, p); }
        assert Tokenize(s) == [Param(t)] + Tokenize(rest);
      case None =>
        RewriteIsOnePass(s[1..], p);
        RewriteAtLiteral(s, p);
        assert Tokenize(s) == [Lit(s[0])] + Tokenize(s[1..]);
    }
  }

  // ---------------------------------------------------------------------
  // The rewritten text holds no token

  /**
   * A rendering starts either with the first character of a safe
   * replacement or with the first character of the text, followed by the
   * rendering of the rest.
   */
  lemma RenderHead(y: string, p: Preset)
    requires SafePreset(p) && |y| > 0
    ensures |Render(Tokenize(y), p)| > 0
    ensures || !IsTokenTail(Render(Tokenize(y), p)[0])
            || (Render(Tokenize(y), p)[0] == y[0] && Render(Tokenize(y), p)[1..] == Render(Tokenize(y[1..]), p))
  {
    match MatchParam(y)
    case Some(t) =>
      RenderTokenIsSafe(t, p);
      assert Tokenize(y)[0] == Param(t);
    case None =>
      assert Tokenize(y) == [Lit(y[0])] + Tokenize(y[1..]);
  }

  /** Text made of token-tail characters at the head of a rendering was at the head of the text. */
  lemma {:induction false} RenderKeepsTokenTail(v: string, y: string, p: Preset)
    requires SafePreset(p)
    requires forall i :: 0 <= i < |v| ==> IsTokenTail(v[i])
    requires v <= Render(Tokenize(y), p)
    ensures v <= y
    decreases |y|
  {
    if |v| > 0 {
      assert |y| > 0;
      RenderHead(y, p);
      assert v[0] == Render(Tokenize(y), p)[0];
      RenderKeepsTokenTail(v[1..], y[1..], p);
    }
  }

  /** After its opening `[`, a token's text is made of token-tail characters only. */
  lemma TokenTextTail(t: Token)
    requires ValidToken(t)
    ensures TokenText(t)[0] == '['
    ensures forall i :: 1 <= i < |TokenText(t)| ==> IsTokenTail(TokenText(t)[i])
    ensures forall i :: 0 <= i < |TokenText(t)[1..]| ==> IsTokenTail(TokenText(t)[1..][i])
    ensures '[' !in TokenText(t)[1..]
  {
    var u := TokenText(t);
    var d := if t.nested then 3 else 0;
    forall i | 1 <= i < |u| ensures IsTokenTail(u[i]) {
      if 1 + d <= i < 1 + d + |t.name| { assert u[i] == t.name[i - 1 - d]; }
    }
    forall i | 0 <= i < |u[1..]| ensures IsTokenTail(u[1..][i]) {
      assert u[1..][i] == u[i + 1];
    }
  }

  /** A token can start at the head of a rendering only where one started in the text. */
  lemma TokenAtRenderHead(s: string, p: Preset, t: Token)
    requires SafePreset(p) && ValidToken(t) && |s| > 0
    requires TokenText(t) <= [s[0]] + Render(Tokenize(s[1..]), p)
    ensures TokenText(t) <= s
  {
    var u := TokenText(t);
    ConsPrefix(u, s[0], Render(Tokenize(s[1..]), p));
    TokenTextTail(t);
    RenderKeepsTokenTail(u[1..], s[1..], p);
    ConsPrefixBack(u, s);
  }


  /** Text holding no `[` in front of text without `u` adds no occurrence of `u`, which starts with `[`. */
  lemma NotOccursAfterHead(u: string, head: string, r: string)
    requires |u| > 0 && u[0] == '[' && '[' !in head && !Occurs(u, r)
    ensures !Occurs(u, head + r)
  {
    var x := head + r;
    forall i | 0 <= i <= |x| ensures !(u <= x[i..]) {
      if i < |head| {
        assert x[i] == head[i];
      } else {
        assert x[i..] == r[i - |head|..];
      }
    }
  }

  /** One character in front of text without `u` adds an occurrence only at the very head. */
  lemma NotOccursAfterChar(u: string, c: char, r: string)
    requires !Occurs(u, r) && !(u <= [c] + r)
    ensures !Occurs(u, [c] + r)
  {
    var x := [c] + r;
    forall i | 0 <= i <= |x| ensures !(u <= x[i..]) {
      if i > 0 {
        assert x[i..] == r[i - 1..];
      } else {
        assert x[0..] == x;
      }
    }
  }

  /**
   * Under a safe preset, no valid token occurs anywhere in the rendering
   * of a text: every token was replaced, and the replacements cannot
   * complete one with the surrounding characters.
   */
  lemma {:induction false} RenderIsTokenFree(s: string, p: Preset, t: Token)
    requires SafePreset(p) && ValidToken(t)
    ensures !Occurs(TokenText(t), Render(Tokenize(s), p))
    decreases |s|
  {
    var u := TokenText(t);
    TokenTextTail(t);
    if |s| == 0 {
      assert Render(Tokenize(s), p) == [];
    } else {
      match MatchParam(s)
      case Some(t0) =>
        var rest := s[|TokenText(t0)|..];
        RenderIsTokenFree(rest, p, t);
        RenderTokenIsSafe(t0, p);
        assert Tokenize(s) == [Param(t0)] + Tokenize(rest);
        assert Render(Tokenize(s), p) == RenderToken(t0, p) + Render(Tokenize(rest), p);
        NotOccursAfterHead(u, RenderToken(t0, p), Render(Tokenize(rest), p));
      case None =>
        RenderIsTokenFree(s[1..], p, t);
        var r := Render(Tokenize(s[1..]), p);
        assert Tokenize(s) == [Lit(s[0])] + Tokenize(s[1..]);
        assert Render(Tokenize(s), p) == [s[0]] + r;
        if u <= [s[0]] + r {
          TokenAtRenderHead(s, p, t);
          MatchParamComplete(s, t);
        }
        NotOccursAfterChar(u, s[0], r);
    }
  }

  /** No token, of either kind, starts anywhere in `s`. */
  ghost predicate TokenFree(s: string) {
    forall i :: 0 <= i < |s| ==> MatchParam(s[i..]).None?
  }

  /**
   * A text without tokens comes through both replacement passes unchanged,
   * under any preset, and declares no parameter.
   */
  lemma {:induction false} TokenFreeUnchanged(s: string, p: Preset)
    requires TokenFree(s)
    ensures ReplaceSingles(s, p) == s && ReplaceNested(s, p) == s
    ensures FindAllParams(s) == []
    decreases |s|
  {
    if |s| > 0 {
      assert s[0..] == s;
      GrammarsAgree(s);
      assert TokenFree(s[1..]) by {
        forall i | 0 <= i < |s[1..]| ensures MatchParam(s[1..][i..]).None? {
          assert s[1..][i..] == s[i + 1..];
        }
      }
      TokenFreeUnchanged(s[1..], p);
      assert Tokenize(s) == [Lit(s[0])] + Tokenize(s[1..]);
      assert s == [s[0]] + s[1..];
    }
  }

  /** A text without `[` holds no token. */
  lemma NoBracketTokenFree(s: string)
    requires '[' !in s
    ensures TokenFree(s)
  {
    forall i | 0 <= i < |s| ensures MatchParam(s[i..]).None? {
      NoMatchWithoutBracket(s[i..]);
    }
  }

  /** A character at which no token starts, in front of a token-free text, leaves it token-free. */
  lemma TokenFreeCons(c: char, s: string)
    requires TokenFree(s) && MatchParam([c] + s).None?
    ensures TokenFree([c] + s)
  {
    var x := [c] + s;
    forall i | 0 <= i < |x| ensures MatchParam(x[i..]).None? {
      if i == 0 { assert x[0..] == x; } else { assert x[i..] == s[i - 1..]; }
    }
  }

  /** One piece in front: rendered in front, declared in front. */
  lemma RenderCons(q: Piece, ps: seq<Piece>, p: Preset)
    ensures Render([q] + ps, p) == (if q.Lit? then [q.c] else RenderToken(q.t, p)) + Render(ps, p)
    ensures Params([q] + ps) == (if q.Param? then [q.t] else []) + Params(ps)
  {
    assert ([q] + ps)[1..] == ps;
  }

  /** Where no token starts, the tokenizer takes one literal character. */
  lemma TokenizeLit(x: string)
    requires |x| > 0 && MatchParam(x).None?
    ensures Tokenize(x) == [Lit(x[0])] + Tokenize(x[1..])
  {
  }

  /** A character other than `[` is one literal piece, rendered as itself. */
  lemma TokenizeChar(c: char, z: string, p: Preset)
    requires c != '['
    ensures Render(Tokenize([c] + z), p) == [c] + Render(Tokenize(z), p)
    ensures Params(Tokenize([c] + z)) == Params(Tokenize(z))
  {
    var x := [c] + z;
    assert x[0] == c && x[1..] == z;
    NoMatchWithoutBracket(x);
    TokenizeLit(x);
    RenderCons(Lit(c), Tokenize(z), p);
  }

  /** Text without `[` is rendered as itself, whatever follows it. */
  lemma {:induction false} RenderSkip(u: string, y: string, p: Preset)
    requires '[' !in u
    ensures Render(Tokenize(u + y), p) == u + Render(Tokenize(y), p)
    decreases |u|
  {
    if |u| == 0 {
      assert u + y == y;
    } else {
      SplitHead(u, y, Render(Tokenize(y), p));
      RenderSkip(u[1..], y, p);
      TokenizeChar(u[0], u[1..] + y, p);
    }
  }

  /** Text without `[` declares nothing, whatever follows it. */
  lemma {:induction false} ParamsSkip(u: string, y: string)
    requires '[' !in u
    ensures Params(Tokenize(u + y)) == Params(Tokenize(y))
    decreases |u|
  {
    if |u| > 0 {
      SplitHead(u, y, y);
      ParamsSkip(u[1..], y);
      TokenizeChar(u[0], u[1..] + y, FiberPreset);
    } else {
      assert u + y == y;
    }
  }

  /** Text without `[` is kept character by character, whatever follows it, and declares nothing. */
  lemma TokenizeSkip(u: string, y: string, p: Preset)
    requires '[' !in u
    ensures Render(Tokenize(u + y), p) == u + Render(Tokenize(y), p)
    ensures Params(Tokenize(u + y)) == Params(Tokenize(y))
  {
    RenderSkip(u, y, p);
    ParamsSkip(u, y);
  }

  /** A token written at the head of a text is one piece, rendered once and declared once. */
  lemma TokenizeToken(t: Token, y: string, p: Preset)
    requires ValidToken(t)
    ensures Render(Tokenize(TokenText(t) + y), p) == RenderToken(t, p) + Render(Tokenize(y), p)
    ensures Params(Tokenize(TokenText(t) + y)) == [t] + Params(Tokenize(y))
  {
    var x := TokenText(t) + y;
    MatchParamComplete(x, t);
    assert x[|TokenText(t)|..] == y;
    assert Tokenize(x) == [Param(t)] + Tokenize(y);
    RenderCons(Param(t), Tokenize(y), p);
  }

  /** Text without `[` is rendered as itself and declares nothing. */
  lemma NoBracketRender(c: string, p: Preset)
    requires '[' !in c
    ensures Render(Tokenize(c), p) == c
    ensures Params(Tokenize(c)) == []
  {
    assert c + "" == c;
    TokenizeSkip(c, "", p);
  }

  /** Text without `[` and then a token: both rendered in place, the token declared first. */
  lemma SkipThenToken(a: string, t: Token, y: string, p: Preset)
    requires '[' !in a && ValidToken(t)
    ensures Render(Tokenize(a + TokenText(t) + y), p) == a + RenderToken(t, p) + Render(Tokenize(y), p)
    ensures Params(Tokenize(a + TokenText(t) + y)) == [t] + Params(Tokenize(y))
  {
    Regroup(a, TokenText(t), y);
    Regroup(a, RenderToken(t, p), Render(Tokenize(y), p));
    TokenizeSkip(a, TokenText(t) + y, p);
    TokenizeToken(t, y, p);
  }

  // ---------------------------------------------------------------------
  // What FindAllStringSubmatch reports

  /** A text that starts with a token's text is matched there by paramRegex. */
  lemma StartsWithToken(s: string, t: Token)
    requires ValidToken(t)
    ensures TokenText(t) <= s ==> MatchParam(s) == Some(t)
  {
    if TokenText(t) <= s {
      MatchParamComplete(s, t);
    }
  }

  /** No token starts inside a token that was matched: its text holds no `[` after the first. */
  lemma NoTokenInside(s: string, t0: Token, t: Token, i: nat)
    requires ValidToken(t0) && TokenText(t0) <= s && ValidToken(t)
    requires 1 <= i < |TokenText(t0)|
    ensures !(TokenText(t) <= s[i..])
  {
    TokenTextTail(t0);
    TokenTextTail(t);
    assert s[i] == TokenText(t0)[i];
    assert s[i..][0] == s[i];
  }

  /**
   * A token is reported by `FindAllStringSubmatch` exactly when its text
   * is written somewhere in the path: matches cannot overlap, so the scan
   * misses none, and it reports nothing that is not there.
   */
  lemma {:induction false} FoundIffPresent(s: string, t: Token)
    requires ValidToken(t)
    ensures t in FindAllParams(s) <==> Occurs(TokenText(t), s)
    decreases |s|
  {
    var u := TokenText(t);
    if |s| == 0 {
      assert forall i :: 0 <= i <= |s| ==> !(u <= s[i..]);
    } else {
      StartsWithToken(s, t);
      match MatchParam(s)
      case Some(t0) =>
        var n := |TokenText(t0)|;
        var rest := Tokenize(s[n..]);
        assert ([Param(t0)] + rest)[1..] == rest;
        assert FindAllParams(s) == [t0] + FindAllParams(s[n..]);
        FoundIffPresent(s[n..], t);
        OccursSplit(u, s, n);
        forall i | 1 <= i < n
          ensures !(u <= s[i..])
        {
          NoTokenInside(s, t0, t, i);
        }
        assert s[0..] == s;
      case None =>
        var rest := Tokenize(s[1..]);
        assert ([Lit(s[0])] + rest)[1..] == rest;
        assert FindAllParams(s) == FindAllParams(s[1..]);
        FoundIffPresent(s[1..], t);
        OccursSplit(u, s, 1);
        assert s[0..] == s;
    }
  }
}
