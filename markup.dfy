/** The description clean-up of `handler` (lines 77-79): a global replace of
    `/<\/(p|span|strong)>\s*<\1>/g` by the empty string, applied exactly twice. */
module Markup {
  import opened Results
  import opened Text

  /** The tag names whose adjacent boundaries are merged: the alternatives of `(p|span|strong)`. */
  datatype Tag = P | Span | Strong

  function Close(tag: Tag): string {
    match tag
    case P => "</p>"
    case Span => "</span>"
    case Strong => "</strong>"
  }

  function Open(tag: Tag): string {
    match tag
    case P => "<p>"
    case Span => "<span>"
    case Strong => "<strong>"
  }

  /** One match of the pattern: the tag captured as `\1` and the text matched by `\s*`. */
  datatype Boundary = Boundary(tag: Tag, gap: string)

  function Matched(b: Boundary): string {
    Close(b.tag) + b.gap + Open(b.tag)
  }

  /** The alternative of `(p|span|strong)` for which `</` + tag + `>` starts `s`. */
  function ClosingTagAt(s: string): (t: Option<Tag>)
    ensures t.Some? ==> IsPrefix(Close(t.value), s)
  {
    if StartsWith(s, Close(P)) then StartsWithIsPrefix(s, Close(P)); Some(P)
    else if StartsWith(s, Close(Span)) then StartsWithIsPrefix(s, Close(Span)); Some(Span)
    else if StartsWith(s, Close(Strong)) then StartsWithIsPrefix(s, Close(Strong)); Some(Strong)
    else None
  }

  /** The match of the pattern at the start of `s`, if any. `\s*` is greedy and
      `<` is not a space, so only the maximal space run can be followed by `<\1>`. */
  function BoundaryAt(s: string): (m: Option<Boundary>)
    ensures m.Some? ==> All(m.value.gap, IsSpace)
    ensures m.Some? ==> IsPrefix(Matched(m.value), s)
  {
    match ClosingTagAt(s)
    case None => None
    case Some(tag) =>
      var after := s[|Close(tag)|..];
      var gap := Run(after, IsSpace);
      if StartsWith(after[|gap|..], Open(tag)) then
        assert IsPrefix(Matched(Boundary(tag, gap)), s) by {
          StartsWithIsPrefix(after[|gap|..], Open(tag));
          PrefixThen(gap, Open(tag), after);
          PrefixThen(Close(tag), gap + Open(tag), s);
          assert Close(tag) + (gap + Open(tag)) == Matched(Boundary(tag, gap));
        }
        Some(Boundary(tag, gap))
      else None
  }

  /** Length of the match at the start of `s`; 0 when there is none. */
  function MatchLength(s: string): (n: nat)
    ensures n <= |s|
    ensures n == 0 <==> BoundaryAt(s).None?
    ensures n > 0 ==> n >= 7 && s[0] == '<' && s[1] == '/'
  {
    match BoundaryAt(s)
    case Some(b) => MatchedShape(b, s); |Matched(b)|
    case None => 0
  }

  /** Every match is at least as long as `</p><p>` and starts with `</`. */
  lemma MatchedShape(b: Boundary, s: string)
    requires IsPrefix(Matched(b), s)
    ensures |Matched(b)| >= 7 && s[0] == '<' && s[1] == '/'
  {
    var m := Matched(b);
    assert m[0] == '<' && m[1] == '/';
    assert s[..|m|][0] == s[0] && s[..|m|][1] == s[1];
  }

  /** One `replaceAll` pass: scan left to right, delete each match and resume after it. */
  function Pass(s: string): (r: string)
    ensures |r| <= |s|
  {
    DeleteAll(s, MatchLength)
  }

  /** The description stored on the item: exactly two passes, not a fixed point. */
  function Describe(html: string): (d: string)
    ensures |d| <= |html|
  {
    Pass(Pass(html))
  }

  /** After a closing tag, the pattern takes the maximal space run and then needs
      the opening tag of the same name right behind it. */
  lemma BoundaryAfterClose(tag: Tag, gap: string, u: string)
    requires All(gap, IsSpace)
    requires u == [] || !IsSpace(u[0])
    ensures BoundaryAt(Close(tag) + gap + u) ==
      if IsPrefix(Open(tag), u) then Some(Boundary(tag, gap)) else None
  {
    var s := Close(tag) + gap + u;
    assert s == Close(tag) + (gap + u);
    ClosingTagAtClose(tag, gap + u);
    assert s[|Close(tag)|..] == gap + u;
    RunOf(gap, u, IsSpace);
    assert (gap + u)[|gap|..] == u;
    StartsWithIsPrefix(u, Open(tag));
  }

  /** The alternatives are tried in order, and none of the three closing tags
      starts with another, so a closing tag selects its own alternative. */
  lemma ClosingTagAtClose(tag: Tag, rest: string)
    ensures ClosingTagAt(Close(tag) + rest) == Some(tag)
  {
    var s := Close(tag) + rest;
    StartsWithIsPrefix(s, Close(tag));
    if tag == Span {
      StartsWithIsPrefix(s, Close(P));
      DiffersAt(Close(P), s, 2);
    } else if tag == Strong {
      StartsWithIsPrefix(s, Close(P));
      StartsWithIsPrefix(s, Close(Span));
      DiffersAt(Close(P), s, 2);
      DiffersAt(Close(Span), s, 3);
    }
  }

  /** The pattern matches exactly a closing tag, a run of spaces and an opening
      tag of the same name from {p, span, strong}. */
  lemma BoundaryAtExact(tag: Tag, gap: string, rest: string)
    requires All(gap, IsSpace)
    ensures BoundaryAt(Matched(Boundary(tag, gap)) + rest) == Some(Boundary(tag, gap))
  {
    assert Matched(Boundary(tag, gap)) + rest == Close(tag) + gap + (Open(tag) + rest);
    BoundaryAfterClose(tag, gap, Open(tag) + rest);
  }

  /** A pass is the identity exactly on strings in which no match starts. */
  lemma PassIdentity(s: string)
    ensures Pass(s) == s <==> forall i :: 0 <= i < |s| ==> BoundaryAt(s[i..]).None?
  {
    DeleteAllIdentity(s, MatchLength);
  }

  /** A pass deletes the whole boundary in front and carries on with what follows. */
  lemma PassDeletes(tag: Tag, gap: string, rest: string)
    requires All(gap, IsSpace)
    ensures Pass(Matched(Boundary(tag, gap)) + rest) == Pass(rest)
  {
    var s := Matched(Boundary(tag, gap)) + rest;
    BoundaryAtExact(tag, gap, rest);
    assert s[|Matched(Boundary(tag, gap))|..] == rest;
  }

  /** Every `<` in `a` is followed, inside `a`, by something other than `/`:
      no closing tag, hence no match, starts in `a`. */
  predicate NoCloseStart(a: string) {
    forall i :: 0 <= i < |a| && a[i] == '<' ==> i + 1 < |a| && a[i + 1] != '/'
  }

  lemma NoCloseStartNoMatch(a: string, rest: string)
    requires NoCloseStart(a)
    ensures NoMatchBefore(a, rest, MatchLength)
  {
    forall i | 0 <= i < |a| ensures !MatchesAt((a + rest)[i..], MatchLength) {
      var t := (a + rest)[i..];
      assert t[0] == a[i];
      if a[i] == '<' { assert t[1] == a[i + 1]; }
    }
  }

  /** A pass copies text in which no closing tag starts. */
  lemma PassCopies(a: string, rest: string)
    requires NoCloseStart(a)
    ensures Pass(a + rest) == a + Pass(rest)
  {
    NoCloseStartNoMatch(a, rest);
    DeleteAllCopies(a, rest, MatchLength);
  }

  /** Text shorter than any match is left as it is. */
  lemma PassShort(s: string)
    requires |s| < 7
    ensures Pass(s) == s
  {
    DeleteAllIdentity(s, MatchLength);
  }

  /** A closing tag not followed, after its run of spaces, by its own opening tag
      is copied; the scan resumes at the spaces. */
  lemma PassKeepsClose(tag: Tag, gap: string, u: string)
    requires All(gap, IsSpace)
    requires u == [] || !IsSpace(u[0])
    requires !IsPrefix(Open(tag), u)
    ensures Pass(Close(tag) + gap + u) == Close(tag) + Pass(gap + u)
  {
    assert Close(tag) + gap + u == Close(tag) + (gap + u);
    CloseNoMatch(tag, gap, u);
    DeleteAllCopies(Close(tag), gap + u, MatchLength);
  }

  /** The same with no spaces between the closing tag and what follows. */
  lemma PassKeepsCloseNext(tag: Tag, u: string)
    requires u == [] || !IsSpace(u[0])
    requires !IsPrefix(Open(tag), u)
    ensures Pass(Close(tag) + u) == Close(tag) + Pass(u)
  {
    var e: string := [];
    assert Close(tag) + e + u == Close(tag) + u && e + u == u;
    PassKeepsClose(tag, e, u);
  }

  lemma CloseNoMatch(tag: Tag, gap: string, u: string)
    requires All(gap, IsSpace)
    requires u == [] || !IsSpace(u[0])
    requires !IsPrefix(Open(tag), u)
    ensures NoMatchBefore(Close(tag), gap + u, MatchLength)
  {
    assert Close(tag) + (gap + u) == Close(tag) + gap + u;
    BoundaryAfterClose(tag, gap, u);
    CloseTailHasNoTag(tag);
    NoCloseStartNoMatch(Close(tag)[1..], gap + u);
    NoMatchBeforeCons(Close(tag), gap + u, MatchLength);
  }

  lemma CloseTailHasNoTag(tag: Tag)
    ensures NoCloseStart(Close(tag)[1..])
  {
    var t := Close(tag)[1..];
    match tag
    case P => assert t == "/p>";
    case Span => assert t == "/span>";
    case Strong => assert t == "/strong>";
  }

  /** `Open(tag) + w` for text `w` without `<`: no closing tag starts in it. */
  lemma OpenThenText(tag: Tag, w: string)
    requires forall i :: 0 <= i < |w| ==> w[i] != '<'
    ensures NoCloseStart(Open(tag) + w)
  {
    var a := Open(tag) + w;
    forall i | 0 <= i < |a| ensures a[i] == '<' ==> i + 1 < |a| && a[i + 1] != '/' {
      if i >= |Open(tag)| {
        assert a[i] == w[i - |Open(tag)|];
      } else if i > 0 {
        assert a[i] == Open(tag)[i];
      } else {
        assert a[1] == Open(tag)[1];
      }
    }
  }

  /** A lone element `<T>w</T>` whose text holds no tag is left as it is. */
  lemma ElementKept(tag: Tag, w: string)
    requires forall i :: 0 <= i < |w| ==> w[i] != '<'
    ensures Pass(Open(tag) + w + Close(tag)) == Open(tag) + w + Close(tag)
  {
    OpenThenText(tag, w);
    PassCopies(Open(tag) + w, Close(tag));
    PassCloseAlone(tag);
  }

  /** Two adjacent elements of the same merged tag, possibly separated by spaces,
      become one: `<T>x</T> <T>y</T>` turns into `<T>xy</T>`. */
  lemma MergesTwo(tag: Tag, x: string, gap: string, y: string)
    requires forall i :: 0 <= i < |x| ==> x[i] != '<'
    requires forall i :: 0 <= i < |y| ==> y[i] != '<'
    requires All(gap, IsSpace)
    ensures Pass(Open(tag) + x + Close(tag) + gap + Open(tag) + y + Close(tag))
         == Open(tag) + x + y + Close(tag)
  {
    var m := Matched(Boundary(tag, gap));
    MergesTwoParts(tag, x, gap, y);
    OpenThenText(tag, x);
    PassCopies(Open(tag) + x, m + (y + Close(tag)));
    PassDeletes(tag, gap, y + Close(tag));
    PassCopies(y, Close(tag));
    PassCloseAlone(tag);
  }

  /** A chain of three elements collapses in a single pass, unlike a nesting:
      `<T>x</T> <T>y</T> <T>z</T>` turns into `<T>xyz</T>`, which the second pass keeps. */
  lemma MergesThree(tag: Tag, x: string, g1: string, y: string, g2: string, z: string)
    requires forall i :: 0 <= i < |x| ==> x[i] != '<'
    requires forall i :: 0 <= i < |y| ==> y[i] != '<'
    requires forall i :: 0 <= i < |z| ==> z[i] != '<'
    requires All(g1, IsSpace) && All(g2, IsSpace)
    ensures Pass(Chain3(tag, x, g1, y, g2, z)) == Open(tag) + x + y + z + Close(tag)
    ensures Describe(Chain3(tag, x, g1, y, g2, z)) == Open(tag) + x + y + z + Close(tag)
  {
    var o, c := Open(tag), Close(tag);
    var m1, m2 := Matched(Boundary(tag, g1)), Matched(Boundary(tag, g2));
    Chain3Parts(tag, x, g1, y, g2, z);
    OpenThenText(tag, x);
    PassCopies(o + x, m1 + (y + (m2 + (z + c))));
    PassDeletes(tag, g1, y + (m2 + (z + c)));
    PassCopies(y, m2 + (z + c));
    PassDeletes(tag, g2, z + c);
    PassCopies(z, c);
    PassCloseAlone(tag);
    forall i | 0 <= i < |x + y + z| ensures (x + y + z)[i] != '<' {
      if i < |x| { assert (x + y + z)[i] == x[i]; }
      else if i < |x| + |y| { assert (x + y + z)[i] == y[i - |x|]; }
      else { assert (x + y + z)[i] == z[i - |x| - |y|]; }
    }
    ElementKept(tag, x + y + z);
  }

  /** Three elements of one tag, separated by runs of spaces. */
  function Chain3(tag: Tag, x: string, g1: string, y: string, g2: string, z: string): string {
    Open(tag) + x + Close(tag) + g1 + Open(tag) + y + Close(tag) + g2 + Open(tag) + z + Close(tag)
  }

  lemma Chain3Parts(tag: Tag, x: string, g1: string, y: string, g2: string, z: string)
    ensures Chain3(tag, x, g1, y, g2, z)
         == (Open(tag) + x) + (Matched(Boundary(tag, g1)) + (y + (Matched(Boundary(tag, g2)) + (z + Close(tag)))))
    ensures Open(tag) + x + y + z + Close(tag) == (Open(tag) + x) + (y + (z + Close(tag)))
    ensures Open(tag) + x + y + z + Close(tag) == Open(tag) + (x + y + z) + Close(tag)
  {
    Regroup(Open(tag), x, Close(tag), g1, y, g2, z);
  }

  lemma Regroup(o: string, x: string, c: string, g1: string, y: string, g2: string, z: string)
    ensures o + x + c + g1 + o + y + c + g2 + o + z + c
         == (o + x) + ((c + g1 + o) + (y + ((c + g2 + o) + (z + c))))
  {
  }

  /** `<span>a</span><span>b</span><span>c</span>` becomes `<span>abc</span>`. */
  lemma MergesSpans(s: string)
    requires s == "<span>a</span>" + "<span>b</span>" + "<span>c</span>"
    ensures Pass(s) == "<span>abc</span>" && Describe(s) == "<span>abc</span>"
  {
    SpanChainParts(s);
    MergesThree(Span, "a", "", "b", "", "c");
  }

  lemma SpanChainParts(s: string)
    requires s == "<span>a</span>" + "<span>b</span>" + "<span>c</span>"
    ensures s == Chain3(Span, "a", "", "b", "", "c")
    ensures "<span>abc</span>" == Open(Span) + "a" + "b" + "c" + Close(Span)
  {
    var o, c := Open(Span), Close(Span);
    Elements3(o, "a", c, "", "b", "", "c");
    assert o + "a" + c == "<span>a</span>" && o + "b" + c == "<span>b</span>" && o + "c" + c == "<span>c</span>";
  }

  lemma Elements3(o: string, x: string, c: string, g1: string, y: string, g2: string, z: string)
    ensures o + x + c + g1 + o + y + c + g2 + o + z + c == (o + x + c) + g1 + (o + y + c) + g2 + (o + z + c)
  {
  }

  lemma MergesTwoParts(tag: Tag, x: string, gap: string, y: string)
    ensures Open(tag) + x + Close(tag) + gap + Open(tag) + y + Close(tag)
         == (Open(tag) + x) + (Matched(Boundary(tag, gap)) + (y + Close(tag)))
    ensures Open(tag) + x + y + Close(tag) == (Open(tag) + x) + (y + Close(tag))
  {
  }

  /** A lone closing tag is copied. */
  lemma PassCloseAlone(tag: Tag)
    ensures Pass(Close(tag)) == Close(tag)
  {
    var e: string := [];
    assert Close(tag) == Close(tag) + e;
    PassKeepsCloseNext(tag, e);
  }

  /** A string whose first position starts no match and in whose tail no closing
      tag starts is left as it is. */
  lemma PassKeepsLead(s: string)
    requires s != [] && BoundaryAt(s).None? && NoCloseStart(s[1..])
    ensures Pass(s) == s
  {
    assert s + [] == s && s[1..] + [] == s[1..];
    NoCloseStartNoMatch(s[1..], []);
    NoMatchBeforeCons(s, [], MatchLength);
    DeleteAllCopies(s, [], MatchLength);
  }

  /** An opening tag is copied. */
  lemma PassOpen(tag: Tag, rest: string)
    ensures Pass(Open(tag) + rest) == Open(tag) + Pass(rest)
  {
    assert Open(tag) + [] == Open(tag);
    OpenThenText(tag, []);
    PassCopies(Open(tag), rest);
  }

  /** `</T><T>` is a boundary with an empty gap: a pass deletes it entirely. */
  lemma BoundaryVanishes(tag: Tag)
    ensures Pass(Close(tag) + Open(tag)) == []
  {
    assert Close(tag) + Open(tag) == Matched(Boundary(tag, [])) + [];
    PassDeletes(tag, [], []);
  }

  /** A closing tag followed by another boundary is copied, and the boundary behind it deleted. */
  lemma CloseThenBoundary(tag: Tag, gap: string, rest: string)
    requires All(gap, IsSpace)
    ensures Pass(Close(tag) + (Matched(Boundary(tag, gap)) + rest)) == Close(tag) + Pass(rest)
  {
    var u := Matched(Boundary(tag, gap)) + rest;
    assert u == Close(tag) + (gap + Open(tag) + rest);
    assert u[0] == '<';
    DiffersAt(Open(tag), u, 1);
    PassKeepsCloseNext(tag, u);
    PassDeletes(tag, gap, rest);
  }

  lemma PassOpenAlone(tag: Tag)
    ensures Pass(Open(tag)) == Open(tag)
  {
    assert Open(tag) + [] == Open(tag);
    PassOpen(tag, []);
  }

  /** A boundary nested inside another one: one pass removes the inner boundary and
      so creates a new one, which only the second pass removes. */
  lemma NestedBoundary(tag: Tag, gap: string)
    requires All(gap, IsSpace)
    ensures Pass(Close(tag) + Close(tag) + gap + Open(tag) + Open(tag)) == Close(tag) + Open(tag)
    ensures Describe(Close(tag) + Close(tag) + gap + Open(tag) + Open(tag)) == []
  {
    var s := Close(tag) + Close(tag) + gap + Open(tag) + Open(tag);
    assert s == Close(tag) + (Matched(Boundary(tag, gap)) + Open(tag));
    CloseThenBoundary(tag, gap, Open(tag));
    PassOpenAlone(tag);
    BoundaryVanishes(tag);
  }

  /** `</p></p> <p><p>`: two passes collapse it to nothing, one pass does not. */
  lemma NestedExampleParts(s: string)
    requires s == "</p></p> <p><p>"
    ensures s == Close(P) + Close(P) + " " + Open(P) + Open(P)
    ensures All(" ", IsSpace) && Close(P) + Open(P) == "</p><p>"
  {
  }

  lemma NestedParagraphs(s: string)
    requires s == "</p></p> <p><p>"
    ensures Pass(s) == "</p><p>" != [] && Describe(s) == []
  {
    NestedExampleParts(s);
    NestedBoundary(P, " ");
  }

  /** `n` boundaries nested inside each other: `n` closing tags, then `n` opening tags. */
  function Stack(tag: Tag, n: nat): string {
    Repeat(Close(tag), n) + Repeat(Open(tag), n)
  }

  /** No match starts in closing tags that stand in front of another closing tag. */
  lemma ClosesNoMatch(tag: Tag, k: nat, x: string)
    requires |x| >= 2 && x[0] == '<' && x[1] == '/'
    ensures NoMatchBefore(Repeat(Close(tag), k), x, MatchLength)
  {
    var c := Close(tag);
    forall u | |u| >= 2 && u[0] == c[0] && u[1] == c[1] ensures NoMatchBefore(c, u, MatchLength) {
      DiffersAt(Open(tag), u, 1);
      CloseNoMatch(tag, [], u);
      assert [] + u == u;
    }
    RepeatNoMatch(c, k, x, MatchLength);
  }

  /** Closing tags in front of another closing tag are copied. */
  lemma PassCloses(tag: Tag, k: nat, x: string)
    requires |x| >= 2 && x[0] == '<' && x[1] == '/'
    ensures Pass(Repeat(Close(tag), k) + x) == Repeat(Close(tag), k) + Pass(x)
  {
    ClosesNoMatch(tag, k, x);
    DeleteAllCopies(Repeat(Close(tag), k), x, MatchLength);
  }

  lemma NoCloseStartAppend(a: string, b: string)
    requires NoCloseStart(a) && NoCloseStart(b)
    ensures NoCloseStart(a + b)
  {
    forall i | 0 <= i < |a + b| && (a + b)[i] == '<' ensures i + 1 < |a + b| && (a + b)[i + 1] != '/' {
      if i < |a| {
        assert a[i] == '<';
      } else {
        assert b[i - |a|] == '<';
      }
    }
  }

  lemma OpenNoCloseStart(tag: Tag)
    ensures NoCloseStart(Open(tag))
  {
    OpenThenText(tag, []);
    assert Open(tag) + [] == Open(tag);
  }

  lemma {:induction false} OpensNoCloseStart(tag: Tag, k: nat)
    ensures NoCloseStart(Repeat(Open(tag), k))
  {
    if k > 0 {
      OpenNoCloseStart(tag);
      OpensNoCloseStart(tag, k - 1);
      NoCloseStartAppend(Open(tag), Repeat(Open(tag), k - 1));
    }
  }

  /** Opening tags are copied. */
  lemma PassOpens(tag: Tag, k: nat)
    ensures Pass(Repeat(Open(tag), k)) == Repeat(Open(tag), k)
  {
    OpensNoCloseStart(tag, k);
    PassCopies(Repeat(Open(tag), k), []);
    assert Repeat(Open(tag), k) + [] == Repeat(Open(tag), k);
  }

  /** Each pass removes only the innermost of nested boundaries: the one it deletes
      brings the next pair together, but the scan has already moved past it. */
  lemma PassStack(tag: Tag, n: nat)
    ensures Pass(Stack(tag, n + 1)) == Stack(tag, n)
  {
    var c, o := Close(tag), Open(tag);
    var x := Matched(Boundary(tag, [])) + Repeat(o, n);
    RepeatSnoc(c, n);
    assert Matched(Boundary(tag, [])) == c + o by { assert c + [] == c; }
    assert Stack(tag, n + 1) == Repeat(c, n) + x;
    assert x[0] == c[0] && x[1] == c[1];
    PassCloses(tag, n, x);
    PassDeletes(tag, [], Repeat(o, n));
    PassOpens(tag, n);
  }

  /** Two passes undo exactly two levels of nesting. */
  lemma DescribeStack(tag: Tag, n: nat)
    ensures Describe(Stack(tag, n + 2)) == Stack(tag, n)
  {
    PassStack(tag, n + 1);
    PassStack(tag, n);
  }

  /** Each level of nesting adds a closing and an opening tag. */
  lemma StackGrows(tag: Tag, n: nat)
    ensures |Stack(tag, n + 1)| == |Stack(tag, n)| + |Close(tag)| + |Open(tag)|
  {
    var c, o := Close(tag), Open(tag);
    assert Repeat(c, n + 1) == c + Repeat(c, n) && Repeat(o, n + 1) == o + Repeat(o, n);
  }

  /** Any nesting is changed by a further pass. */
  lemma StackNotFixed(tag: Tag, n: nat)
    requires n > 0
    ensures Pass(Stack(tag, n)) != Stack(tag, n)
  {
    PassStack(tag, n - 1);
    StackGrows(tag, n - 1);
  }

  /** Once three or more levels are nested, the description is not a fixed point
      of the pass: a third pass would still change it. */
  lemma DescribedStackNotFixed(tag: Tag, n: nat)
    requires n > 0
    ensures Pass(Describe(Stack(tag, n + 2))) != Describe(Stack(tag, n + 2))
  {
    DescribeStack(tag, n);
    StackNotFixed(tag, n);
  }

  /** `</p></p></p><p><p><p>` keeps `</p><p>` after two passes. */
  lemma ThreeDeepExampleParts(s: string)
    requires s == "</p></p></p><p><p><p>"
    ensures s == Stack(P, 3) && Stack(P, 1) == "</p><p>"
  {
    var c, o := Close(P), Open(P);
    RepeatThree(c);
    RepeatThree(o);
    assert Repeat(c, 1) == c && Repeat(o, 1) == o;
  }

  lemma RepeatThree(s: string)
    ensures Repeat(s, 3) == s + s + s
  {
    assert Repeat(s, 1) == s;
  }

  lemma ThreeDeepParagraphs(s: string)
    requires s == "</p></p></p><p><p><p>"
    ensures Describe(s) == "</p><p>" && Pass(Describe(s)) != Describe(s)
  {
    ThreeDeepExampleParts(s);
    DescribeStack(P, 1);
    DescribedStackNotFixed(P, 1);
  }

  /** The two tag names must agree: a closing tag followed, after a run of spaces,
      by the opening tag of another merged name is kept with the spaces and that
      opening tag, and the scan carries on behind them. */
  lemma MismatchKept(t1: Tag, t2: Tag, gap: string, rest: string)
    requires t1 != t2
    requires All(gap, IsSpace)
    ensures Pass(Close(t1) + gap + (Open(t2) + rest)) == Close(t1) + (gap + Open(t2)) + Pass(rest)
  {
    OtherOpen(t1, t2, rest);
    PassKeepsClose(t1, gap, Open(t2) + rest);
    PassSpacesOpen(gap, t2, rest);
  }

  /** Another merged name's opening tag does not start with this one's, nor with a space. */
  lemma OtherOpen(t1: Tag, t2: Tag, rest: string)
    requires t1 != t2
    ensures !IsPrefix(Open(t1), Open(t2) + rest) && !IsSpace((Open(t2) + rest)[0])
  {
    var i := if t1 == P || t2 == P then 1 else 2;
    DiffersAt(Open(t1), Open(t2) + rest, i);
  }

  /** Spaces and an opening tag are copied, and the scan carries on behind them. */
  lemma PassSpacesOpen(gap: string, tag: Tag, rest: string)
    requires All(gap, IsSpace)
    ensures Pass(gap + (Open(tag) + rest)) == gap + Open(tag) + Pass(rest)
  {
    SpacesThenOpen(gap, tag);
    AppendAssoc(gap, Open(tag), rest);
    PassCopies(gap + Open(tag), rest);
  }

  /** `</T1><T2>` alone is left as it is. */
  lemma MismatchAdjacent(t1: Tag, t2: Tag)
    requires t1 != t2
    ensures Pass(Close(t1) + Open(t2)) == Close(t1) + Open(t2)
  {
    var i := if t1 == P || t2 == P then 1 else 2;
    DiffersAt(Open(t1), Open(t2), i);
    PassKeepsCloseNext(t1, Open(t2));
    PassOpenAlone(t2);
  }

  /** No closing tag starts in a run of spaces followed by an opening tag. */
  lemma SpacesThenOpen(gap: string, tag: Tag)
    requires All(gap, IsSpace)
    ensures NoCloseStart(gap + Open(tag))
  {
    assert NoCloseStart(gap) by {
      forall i | 0 <= i < |gap| ensures gap[i] != '<' {
        assert IsSpace(gap[i]);
      }
    }
    OpenNoCloseStart(tag);
    NoCloseStartAppend(gap, Open(tag));
  }

  /** `</p><span>` is left as it is. */
  lemma ParagraphSpanKept(s: string)
    requires s == "</p><span>"
    ensures Pass(s) == s && Describe(s) == s
  {
    assert s == Close(P) + Open(Span);
    MismatchAdjacent(P, Span);
  }

  /** The tag name inside `Close(tag)`. */
  function TagName(tag: Tag): (n: string)
    ensures Close(tag) == "</" + n + ">"
    ensures |n| > 0 && All(n, IsWordChar)
  {
    match tag
    case P => "p"
    case Span => "span"
    case Strong => "strong"
  }

  /** `</N>` for a word-character tag name `N` other than the tag's own name does
      not start with the tag's closing tag: they differ at some position. */
  lemma OtherName(name: string, rest: string, tag: Tag)
    requires |name| > 0 && All(name, IsWordChar)
    requires name != TagName(tag)
    ensures !StartsWith("</" + name + ">" + rest, Close(tag))
  {
    var s := "</" + name + ">" + rest;
    var c, t := Close(tag), TagName(tag);
    var k := |t|;
    assert c[2 + k] == '>';
    if |name| > k {
      assert s[2 + k] == name[k];
      DiffersAt(c, s, 2 + k);
    } else if |name| < k {
      assert s[2 + |name|] == '>' && c[2 + |name|] == t[|name|];
      DiffersAt(c, s, 2 + |name|);
    } else {
      var i :| 0 <= i < k && name[i] != t[i];
      assert s[2 + i] == name[i] && c[2 + i] == t[i];
      DiffersAt(c, s, 2 + i);
    }
    StartsWithIsPrefix(s, c);
  }

  /** In `/N>` and in `<N>`, for a word-character name `N`, no closing tag starts. */
  lemma TagTextNoCloseStart(name: string)
    requires |name| > 0 && All(name, IsWordChar)
    ensures NoCloseStart("/" + name + ">") && NoCloseStart("<" + name + ">")
  {
    var a, b := "/" + name + ">", "<" + name + ">";
    forall i | 0 <= i < |a| ensures a[i] != '<' {
      if 0 < i <= |name| {
        assert a[i] == name[i - 1];
      }
    }
    assert b[1] == name[0];
    forall i | 0 < i < |b| ensures b[i] != '<' {
      if i <= |name| {
        assert b[i] == name[i - 1];
      }
    }
  }

  /** An element boundary of a tag name outside {p, span, strong}, such as
      `</pre><pre>`, is left as it is. */
  lemma OtherTagKept(name: string)
    requires |name| > 0 && All(name, IsWordChar)
    requires name != "p" && name != "span" && name != "strong"
    ensures Pass("</" + name + "><" + name + ">") == "</" + name + "><" + name + ">"
  {
    OtherTagNoLead(name);
    PassKeepsLead("</" + name + "><" + name + ">");
  }

  lemma OtherTagNoLead(name: string)
    requires |name| > 0 && All(name, IsWordChar)
    requires name != "p" && name != "span" && name != "strong"
    ensures var s := "</" + name + "><" + name + ">";
      s != [] && BoundaryAt(s).None? && NoCloseStart(s[1..])
  {
    var lead, tail := "</" + name + ">", "<" + name + ">";
    assert "</" + name + "><" + name + ">" == lead + tail;
    OtherClosingTag(name, tail);
    OtherTagTail(name);
  }

  lemma OtherClosingTag(name: string, tail: string)
    requires |name| > 0 && All(name, IsWordChar)
    requires name != "p" && name != "span" && name != "strong"
    ensures ClosingTagAt("</" + name + ">" + tail).None?
  {
    OtherName(name, tail, P);
    OtherName(name, tail, Span);
    OtherName(name, tail, Strong);
  }

  lemma OtherTagTail(name: string)
    requires |name| > 0 && All(name, IsWordChar)
    ensures NoCloseStart(("</" + name + ">" + "<" + name + ">")[1..])
  {
    var a, b := "/" + name + ">", "<" + name + ">";
    assert ("</" + name + ">" + "<" + name + ">")[1..] == a + b;
    TagTextNoCloseStart(name);
    NoCloseStartAppend(a, b);
  }

  /** `</pre><pre>` is left as it is. */
  lemma PreKept(s: string)
    requires s == "</pre><pre>"
    ensures Pass(s) == s && Describe(s) == s
  {
    assert s == "</" + "pre" + "><" + "pre" + ">";
    OtherTagKept("pre");
  }

  lemma MergeExampleParts(s: string)
    requires s == "<p>a</p><p>b</p>"
    ensures s == Open(P) + "a" + Close(P) + [] + Open(P) + "b" + Close(P)
    ensures Open(P) + "a" + "b" + Close(P) == "<p>ab</p>"
  {
  }

  /** `<p>a</p><p>b</p>` becomes `<p>ab</p>`. */
  lemma MergesParagraphs(s: string)
    requires s == "<p>a</p><p>b</p>"
    ensures Pass(s) == "<p>ab</p>"
  {
    MergeExampleParts(s);
    MergesTwo(P, "a", [], "b");
  }
}
