/**
 * The parts of Go's `strings` and `sort` packages that the router relies on:
 * prefix and suffix tests, `TrimSuffix`, `ReplaceAll` and `sort.Strings`.
 * Go strings are byte strings; the router only ever inspects ASCII, so a
 * string is a sequence of characters here.
 */
module GoStrings {

  /** `strings.HasPrefix(s, prefix)` */
  predicate HasPrefix(s: string, prefix: string) {
    prefix <= s
  }

  /** `strings.HasSuffix(s, suffix)` */
  predicate HasSuffix(s: string, suffix: string) {
    |suffix| <= |s| && s[|s| - |suffix|..] == suffix
  }

  /** `strings.TrimSuffix(s, suffix)`: one copy of `suffix` is removed when it is there. */
  function TrimSuffix(s: string, suffix: string): (r: string)
    ensures HasSuffix(s, suffix) ==> r + suffix == s
    ensures !HasSuffix(s, suffix) ==> r == s
  {
    if HasSuffix(s, suffix) then s[..|s| - |suffix|] else s
  }

  /** A text ends in what was appended to it, and trimming that gives the text back. */
  lemma TrimSuffixOfConcat(a: string, b: string)
    ensures HasSuffix(a + b, b)
    ensures TrimSuffix(a + b, b) == a
  {
    assert (a + b)[|a|..] == b;
    assert (a + b)[..|a|] == a;
  }

  /** `u` occurs somewhere in `s` as a contiguous piece. */
  ghost predicate Occurs(u: string, s: string) {
    exists i :: 0 <= i <= |s| && u <= s[i..]
  }

  /** An occurrence in the tail of `s` is an occurrence in `s`. */
  lemma OccursInTail(u: string, s: string)
    requires |s| > 0
    ensures Occurs(u, s[1..]) ==> Occurs(u, s)
  {
    if Occurs(u, s[1..]) {
      var i :| 0 <= i <= |s[1..]| && u <= s[1..][i..];
      assert s[1..][i..] == s[i + 1..];
    }
  }

  /** An occurrence in a prefix of `s` is an occurrence in `s`. */
  lemma OccursInPrefix(u: string, a: string, s: string)
    requires a <= s && Occurs(u, a)
    ensures Occurs(u, s)
  {
    var i :| 0 <= i <= |a| && u <= a[i..];
    assert a[i..] <= s[i..];
  }

  /**
   * `strings.ReplaceAll(s, pattern, repl)` for a non-empty pattern: the
   * occurrences are found from left to right and do not overlap.
   */
  function ReplaceAll(s: string, pattern: string, repl: string): (r: string)
    requires |pattern| > 0
    ensures !Occurs(pattern, s) ==> r == s
    decreases |s|
  {
    if |s| == 0 then s
    else if pattern <= s then
      assert s[0..] == s;
      repl + ReplaceAll(s[|pattern|..], pattern, repl)
    else
      OccursInTail(pattern, s);
      [s[0]] + ReplaceAll(s[1..], pattern, repl)
  }

  /** Concatenation is associative. */
  lemma Regroup(a: string, b: string, c: string)
    ensures a + b + c == a + (b + c)
  {
  }

  /** A text is its prefix followed by the rest. */
  lemma PrefixSplit(u: string, s: string)
    requires u <= s
    ensures s == u + s[|u|..]
  {
  }

  /** A prefix of `[c] + r` starts with `c` and goes on with a prefix of `r`. */
  lemma ConsPrefix(u: string, c: char, r: string)
    requires |u| > 0 && u <= [c] + r
    ensures u[0] == c && u[1..] <= r
  {
    assert ([c] + r)[1..] == r;
  }

  /** Agreeing on the first character and then on a prefix of the rest makes a prefix. */
  lemma ConsPrefixBack(u: string, s: string)
    requires |u| > 0 && |s| > 0 && u[0] == s[0] && u[1..] <= s[1..]
    ensures u <= s
  {
    forall i | 0 <= i < |u| ensures u[i] == s[i] {
      if i > 0 { assert u[i] == u[1..][i - 1]; }
    }
  }

  /** Splitting the first character off a text that is followed by `y` or by `r`. */
  lemma SplitHead(u: string, y: string, r: string)
    requires |u| > 0
    ensures u + y == [u[0]] + (u[1..] + y) && u + r == [u[0]] + (u[1..] + r)
    ensures forall c :: c in u[1..] ==> c in u
  {
    assert u == [u[0]] + u[1..];
  }

  /** Where the pattern does not start, one character is copied. */
  lemma ReplaceAllCopies(x: string, pattern: string, repl: string)
    requires |pattern| > 0 && |x| > 0 && !(pattern <= x)
    ensures ReplaceAll(x, pattern, repl) == [x[0]] + ReplaceAll(x[1..], pattern, repl)
  {
  }

  /**
   * Text at none of whose positions an occurrence of the pattern starts is
   * copied through, whatever follows it. The occurrence may not start
   * there even when it would run on into `y`.
   */
  lemma {:induction false} ReplaceAllSkip(u: string, pattern: string, repl: string, y: string)
    requires |pattern| > 0
    requires forall i :: 0 <= i < |u| ==> !(pattern <= (u + y)[i..])
    ensures ReplaceAll(u + y, pattern, repl) == u + ReplaceAll(y, pattern, repl)
    decreases |u|
  {
    if |u| == 0 {
      assert u + y == y;
    } else {
      var x := u + y;
      SplitHead(u, y, ReplaceAll(y, pattern, repl));
      assert x[1..] == u[1..] + y;
      forall i | 0 <= i < |u[1..]|
        ensures !(pattern <= (u[1..] + y)[i..])
      {
        assert (u[1..] + y)[i..] == x[i + 1..];
      }
      ReplaceAllSkip(u[1..], pattern, repl, y);
      assert x[0..] == x;
      ReplaceAllCopies(x, pattern, repl);
    }
  }

  /**
   * The leftmost occurrence of the pattern is replaced by `repl`, and
   * replacement goes on after it.
   */
  lemma ReplaceAllAt(u: string, pattern: string, repl: string, y: string)
    requires |pattern| > 0
    requires forall i :: 0 <= i < |u| ==> !(pattern <= (u + pattern + y)[i..])
    ensures ReplaceAll(u + pattern + y, pattern, repl) == u + repl + ReplaceAll(y, pattern, repl)
  {
    Regroup(u, pattern, y);
    Regroup(u, repl, ReplaceAll(y, pattern, repl));
    ReplaceAllSkip(u, pattern, repl, pattern + y);
    assert (pattern + y)[|pattern|..] == y;
  }

  /** No occurrence of the pattern starts in text that lacks its first character. */
  lemma NoStartWithoutHead(u: string, pattern: string, y: string)
    requires |pattern| > 0 && pattern[0] !in u
    ensures forall i :: 0 <= i < |u| ==> !(pattern <= (u + y)[i..])
  {
    forall i | 0 <= i < |u|
      ensures !(pattern <= (u + y)[i..])
    {
      assert (u + y)[i..][0] == u[i];
    }
  }

  /** Only the empty text occurs in the empty text. */
  lemma OccursInEmpty(u: string)
    ensures Occurs(u, []) <==> |u| == 0
  {
    var e: string := [];
    assert e[0..] == e;
  }

  /** An occurrence in `s` starts before `n`, or lies in `s[n..]`. */
  lemma OccursSplit(u: string, s: string, n: nat)
    requires n <= |s|
    ensures Occurs(u, s) <==> (exists i :: 0 <= i < n && u <= s[i..]) || Occurs(u, s[n..])
  {
    if Occurs(u, s) {
      var i :| 0 <= i <= |s| && u <= s[i..];
      if n <= i {
        assert s[n..][i - n..] == s[i..];
      }
    }
    if Occurs(u, s[n..]) {
      var j :| 0 <= j <= |s[n..]| && u <= s[n..][j..];
      assert s[n..][j..] == s[n + j..];
    }
  }

  /** Go's `<=` on strings: lexicographic by character code. */
  predicate StrLeq(a: string, b: string)
    decreases |a|
  {
    |a| == 0 || (|b| > 0 && (a[0] < b[0] || (a[0] == b[0] && StrLeq(a[1..], b[1..]))))
  }

  lemma {:induction false} StrLeqReflexive(a: string)
    ensures StrLeq(a, a)
    decreases |a|
  {
    if |a| > 0 {
      StrLeqReflexive(a[1..]);
    }
  }

  lemma {:induction false} StrLeqTotal(a: string, b: string)
    ensures StrLeq(a, b) || StrLeq(b, a)
    decreases |a|
  {
    if |a| > 0 && |b| > 0 && a[0] == b[0] {
      StrLeqTotal(a[1..], b[1..]);
    }
  }

  lemma {:induction false} StrLeqAntisymmetric(a: string, b: string)
    requires StrLeq(a, b) && StrLeq(b, a)
    ensures a == b
    decreases |a|
  {
    if |a| > 0 {
      StrLeqAntisymmetric(a[1..], b[1..]);
      assert a == [a[0]] + a[1..] && b == [b[0]] + b[1..];
    }
  }

  lemma {:induction false} StrLeqTransitive(a: string, b: string, c: string)
    requires StrLeq(a, b) && StrLeq(b, c)
    ensures StrLeq(a, c)
    decreases |a|
  {
    if |a| > 0 && a[0] == b[0] && b[0] == c[0] {
      StrLeqTransitive(a[1..], b[1..], c[1..]);
    }
  }

  ghost predicate Sorted(s: seq<string>) {
    forall i, j :: 0 <= i < j < |s| ==> StrLeq(s[i], s[j])
  }

  /** Inserts `x` into the sorted sequence `s`, before the first element not below it. */
  function Insert(x: string, s: seq<string>): (r: seq<string>)
    requires Sorted(s)
    ensures Sorted(r)
    ensures multiset(r) == multiset(s) + multiset{x}
  {
    if |s| == 0 then [x]
    else if StrLeq(x, s[0]) then
      var r := [x] + s;
      assert Sorted(r) by {
        forall j | 0 < j < |r| ensures StrLeq(x, r[j]) {
          if j > 1 { StrLeqTransitive(x, s[0], s[j - 1]); } else { StrLeqReflexive(x); }
        }
      }
      assert s == [s[0]] + s[1..];
      r
    else
      var tail := Insert(x, s[1..]);
      var r := [s[0]] + tail;
      assert s == [s[0]] + s[1..];
      assert Sorted(r) by {
        forall j | 0 < j < |r| ensures StrLeq(s[0], r[j]) {
          assert r[j] in multiset(tail);
          if r[j] == x { StrLeqTotal(x, s[0]); } else { assert r[j] in s[1..]; }
        }
      }
      r
  }

  /** `sort.Strings`: the sorted permutation of `s`. */
  function SortStrings(s: seq<string>): (r: seq<string>)
    ensures Sorted(r)
    ensures multiset(r) == multiset(s)
  {
    if |s| == 0 then []
    else
      assert s == [s[0]] + s[1..];
      Insert(s[0], SortStrings(s[1..]))
  }

  /** The head of a sorted sequence is below every one of its elements. */
  lemma SortedHeadIsLeast(a: seq<string>, x: string)
    requires Sorted(a) && x in a
    ensures StrLeq(a[0], x)
  {
    var i :| 0 <= i < |a| && a[i] == x;
    if i == 0 { StrLeqReflexive(x); }
  }

  /**
   * A sorted permutation is unique, so `SortStrings` stands for any correct
   * implementation of `sort.Strings`, stable or not.
   */
  lemma {:induction false} SortedPermutationUnique(a: seq<string>, b: seq<string>)
    requires Sorted(a) && Sorted(b) && multiset(a) == multiset(b)
    ensures a == b
    decreases |a|
  {
    assert |b| == |multiset(b)| == |multiset(a)| == |a|;
    if |a| > 0 {
      assert b[0] in multiset(a) && a[0] in multiset(b);
      SortedHeadIsLeast(a, b[0]);
      SortedHeadIsLeast(b, a[0]);
      StrLeqAntisymmetric(a[0], b[0]);
      var x := a[0];
      assert a == [x] + a[1..] && b == [x] + b[1..];
      assert multiset(a[1..]) == multiset(a) - multiset{x};
      assert multiset(b[1..]) == multiset(b) - multiset{x};
      SortedPermutationUnique(a[1..], b[1..]);
    }
  }
}
