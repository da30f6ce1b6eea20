/** Character classes and scanning helpers shared by the URL rewrites and the
    tag-collapse pass. Every character the patterns mention lies in the Basic
    Multilingual Plane, so reading a string as Unicode characters rather than
    UTF-16 code units changes no match. */
module Text {

  /** `p` is a prefix of `s` (JavaScript `s.startsWith(p)`, or a `^`-anchored literal). */
  predicate IsPrefix(p: string, s: string) {
    |p| <= |s| && s[..|p|] == p
  }

  /** A string that differs from `p` at some position inside both does not start with `p`. */
  lemma DiffersAt(p: string, s: string, i: nat)
    requires i < |p| && i < |s| && p[i] != s[i]
    ensures !IsPrefix(p, s)
  {
  }

  /** Prefixes compose: `a` starts `s` and `b` starts what follows it. */
  lemma PrefixThen(a: string, b: string, s: string)
    requires IsPrefix(a, s) && IsPrefix(b, s[|a|..])
    ensures IsPrefix(a + b, s)
  {
    assert s[..|a| + |b|] == s[..|a|] + s[|a|..][..|b|];
  }

  /** `s` starts with `p`, checked one character at a time. The same relation as
      `IsPrefix(p, s)` (see `StartsWithIsPrefix`), kept in this recursive form for
      the pattern tests: on a literal `p` it unfolds into plain character
      comparisons instead of an equality of slices. */
  predicate StartsWith(s: string, p: string)
    decreases p
  {
    p == [] || (s != [] && s[0] == p[0] && StartsWith(s[1..], p[1..]))
  }

  lemma {:induction false} StartsWithIsPrefix(s: string, p: string)
    ensures StartsWith(s, p) <==> IsPrefix(p, s)
    decreases p
  {
    if p != [] && s != [] {
      StartsWithIsPrefix(s[1..], p[1..]);
      if IsPrefix(p, s) {
        assert s[1..][..|p| - 1] == s[..|p|][1..];
      }
      if IsPrefix(p[1..], s[1..]) && s[0] == p[0] {
        assert s[..|p|] == [s[0]] + s[1..][..|p| - 1];
      }
    }
  }

  /** The regular-expression class `\w` outside Unicode mode: `[A-Za-z0-9_]`. */
  predicate IsWordChar(c: char) {
    ('a' <= c <= 'z') || ('A' <= c <= 'Z') || ('0' <= c <= '9') || c == '_'
  }

  /** The regular-expression class `\s`: ECMAScript WhiteSpace and LineTerminator code units. */
  predicate IsSpace(c: char) {
    c == '\t' || c == '\n' || c == '\U{000B}' || c == '\U{000C}' || c == '\r' || c == ' '
    || c == '\U{00A0}' || c == '\U{1680}' || ('\U{2000}' <= c <= '\U{200A}')
    || c == '\U{2028}' || c == '\U{2029}' || c == '\U{202F}' || c == '\U{205F}'
    || c == '\U{3000}' || c == '\U{FEFF}'
  }

  predicate All(s: string, p: char -> bool) {
    forall i :: 0 <= i < |s| ==> p(s[i])
  }

  /** A match of length `at(t)` starts `t`: `at` gives the length of the match at
      the start of a string, and 0 (or anything longer than the string) for none. */
  predicate MatchesAt(t: string, at: string -> nat) {
    0 < at(t) <= |t|
  }

  /** JavaScript's `s.replaceAll(pattern, "")` for a pattern whose matches are never
      empty: the scan goes left to right, deletes each match and resumes right after it. */
  function DeleteAll(s: string, at: string -> nat): (r: string)
    ensures |r| <= |s|
    decreases |s|
  {
    if s == [] then []
    else if MatchesAt(s, at) then DeleteAll(s[at(s)..], at)
    else [s[0]] + DeleteAll(s[1..], at)
  }

  /** No match of `at` starts anywhere in `s`. */
  predicate NoMatch(s: string, at: string -> nat) {
    forall i :: 0 <= i < |s| ==> !MatchesAt(s[i..], at)
  }

  /** `NoMatch` unfolded one position at a time. */
  lemma NoMatchCons(s: string, at: string -> nat)
    requires s != []
    ensures NoMatch(s, at) <==> !MatchesAt(s, at) && NoMatch(s[1..], at)
  {
    if !MatchesAt(s, at) && NoMatch(s[1..], at) {
      forall i | 0 <= i < |s| ensures !MatchesAt(s[i..], at) {
        if i > 0 { assert s[i..] == s[1..][i - 1..]; }
      }
    }
    if NoMatch(s, at) {
      assert s[0..] == s;
      forall i | 0 <= i < |s[1..]| ensures !MatchesAt(s[1..][i..], at) {
        assert s[1..][i..] == s[i + 1..];
      }
    }
  }

  /** Deleting all matches changes nothing exactly when there is no match. */
  lemma {:induction false} DeleteAllIdentity(s: string, at: string -> nat)
    ensures DeleteAll(s, at) == s <==> NoMatch(s, at)
    decreases |s|
  {
    if s != [] {
      NoMatchCons(s, at);
      if MatchesAt(s, at) {
        assert |DeleteAll(s, at)| < |s|;
      } else {
        DeleteAllIdentity(s[1..], at);
        assert DeleteAll(s, at) == [s[0]] + DeleteAll(s[1..], at);
        assert DeleteAll(s, at) == s <==> DeleteAll(s[1..], at) == s[1..];
      }
    }
  }

  /** A character at which no match starts is copied. */
  lemma DeleteAllKeeps(s: string, at: string -> nat)
    requires s != [] && !MatchesAt(s, at)
    ensures DeleteAll(s, at) == [s[0]] + DeleteAll(s[1..], at)
  {
  }

  lemma AppendAssoc(a: string, b: string, c: string)
    ensures a + (b + c) == a + b + c
  {
  }

  lemma ConsAssoc(a: string, x: string)
    requires a != []
    ensures [a[0]] + (a[1..] + x) == a + x
  {
    assert a == [a[0]] + a[1..];
  }

  /** No match starts inside `a`, in front of `rest`. */
  predicate NoMatchBefore(a: string, rest: string, at: string -> nat) {
    forall i :: 0 <= i < |a| ==> !MatchesAt((a + rest)[i..], at)
  }

  lemma NoMatchBeforeTail(a: string, rest: string, at: string -> nat)
    requires a != [] && NoMatchBefore(a, rest, at)
    ensures !MatchesAt(a + rest, at) && NoMatchBefore(a[1..], rest, at)
  {
    var s := a + rest;
    assert s[0..] == s;
    forall i | 0 <= i < |a[1..]| ensures !MatchesAt((a[1..] + rest)[i..], at) {
      assert (a[1..] + rest)[i..] == s[i + 1..];
    }
  }

  lemma NoMatchBeforeCons(a: string, rest: string, at: string -> nat)
    requires a != [] && !MatchesAt(a + rest, at) && NoMatchBefore(a[1..], rest, at)
    ensures NoMatchBefore(a, rest, at)
  {
    var s := a + rest;
    assert s[0..] == s;
    forall i | 1 <= i < |a| ensures !MatchesAt(s[i..], at) {
      assert s[i..] == (a[1..] + rest)[i - 1..];
    }
  }

  /** Positions free of matches can be chained block by block. */
  lemma NoMatchBeforeAppend(a: string, b: string, rest: string, at: string -> nat)
    requires NoMatchBefore(a, b + rest, at) && NoMatchBefore(b, rest, at)
    ensures NoMatchBefore(a + b, rest, at)
  {
    assert (a + b) + rest == a + (b + rest);
    forall i | |a| <= i < |a + b| ensures !MatchesAt(((a + b) + rest)[i..], at) {
      assert ((a + b) + rest)[i..] == (b + rest)[i - |a|..];
    }
  }

  /** `n` copies of `s` in a row. */
  function Repeat(s: string, n: nat): string {
    if n == 0 then [] else s + Repeat(s, n - 1)
  }

  lemma {:induction false} RepeatSnoc(s: string, n: nat)
    ensures Repeat(s, n + 1) == Repeat(s, n) + s
  {
    if n > 0 {
      RepeatSnoc(s, n - 1);
      assert Repeat(s, n + 1) == s + (Repeat(s, n - 1) + s);
    }
  }

  /** Copies of a block in which no match starts whenever the block's first two
      characters follow it, in front of text that starts with those two characters. */
  lemma {:induction false} RepeatNoMatch(c: string, k: nat, x: string, at: string -> nat)
    requires |c| >= 2 && |x| >= 2 && x[0] == c[0] && x[1] == c[1]
    requires forall u :: |u| >= 2 && u[0] == c[0] && u[1] == c[1] ==> NoMatchBefore(c, u, at)
    ensures NoMatchBefore(Repeat(c, k), x, at)
  {
    if k > 0 {
      var r := Repeat(c, k - 1);
      if k > 1 {
        assert (r + x)[0] == c[0] && (r + x)[1] == c[1];
      } else {
        assert r + x == x;
      }
      RepeatNoMatch(c, k - 1, x, at);
      NoMatchBeforeAppend(c, r, x, at);
    }
  }

  /** Text in front of `rest` at none of whose positions a match starts is copied. */
  lemma {:induction false} DeleteAllCopies(a: string, rest: string, at: string -> nat)
    requires NoMatchBefore(a, rest, at)
    ensures DeleteAll(a + rest, at) == a + DeleteAll(rest, at)
    decreases |a|
  {
    if a == [] {
      assert a + rest == rest;
    } else {
      NoMatchBeforeTail(a, rest, at);
      DeleteAllKeeps(a + rest, at);
      DeleteAllCopies(a[1..], rest, at);
      assert (a + rest)[1..] == a[1..] + rest && (a + rest)[0] == a[0];
      ConsAssoc(a, DeleteAll(rest, at));
    }
  }

  /** The longest prefix of `s` whose characters all satisfy `p`: what a greedy
      `p*` matches at the start of `s`. */
  function Run(s: string, p: char -> bool): (w: string)
    ensures IsPrefix(w, s) && All(w, p)
    ensures |w| == |s| || !p(s[|w|])
  {
    if s == [] || !p(s[0]) then [] else [s[0]] + Run(s[1..], p)
  }

  /** A run is determined by where it stops: a string of `p` characters followed by
      a non-`p` character (or nothing) is its own run. */
  lemma {:induction false} RunOf(w: string, t: string, p: char -> bool)
    requires All(w, p)
    requires t == [] || !p(t[0])
    ensures Run(w + t, p) == w
  {
    if w != [] {
      assert (w + t)[0] == w[0];
      assert (w + t)[1..] == w[1..] + t;
      RunOf(w[1..], t, p);
    } else {
      assert w + t == t;
    }
  }
}
