/**
 The ignore filter of the size labeler (`isIgnorable`): decides whether a
 changed file is left out of the pull request's change volume, given the
 patterns of the `FILES_TO_IGNORE` setting. A pattern is either a file name,
 matched by equality, or holds a `*`; then the text after the first `*` (up to
 a second `*`, if any) is looked for ANYWHERE in the file name. This is a
 substring test, not a suffix anchor: `*.go` also ignores `x.gomod`, and `*`
 or `foo*` ignore every file.
 */
module Ignore {
  import opened GoStrings

  /**
   `strings.Split(pattern, "*")[1]` for a pattern holding a `*`: the text
   strictly between the first `*` and the next `*`, or the end of the pattern.
   */
  function WildcardFragment(pattern: string): (fragment: string)
    requires '*' in pattern
    ensures '*' !in fragment
    ensures exists i ::
              && 0 <= i && i + 1 + |fragment| <= |pattern|
              && pattern[i] == '*' && '*' !in pattern[..i]
              && pattern[i + 1..i + 1 + |fragment|] == fragment
              && (i + 1 + |fragment| == |pattern| || pattern[i + 1 + |fragment|] == '*')
  {
    SecondPieceBetweenSeparators(pattern, '*');
    var pieces := Split(pattern, '*');
    assert pattern[|pieces[0]|] == '*';
    pieces[1]
  }

  /** One pattern matches a file name: by the wildcard fragment occurring
      somewhere in the name, or by being the file name itself. */
  predicate Matches(filename: string, pattern: string)
    ensures Matches(filename, pattern) <==>
              || ('*' in pattern && exists i :: OccursAt(filename, WildcardFragment(pattern), i))
              || pattern == filename
  {
    || ('*' in pattern && Contains(filename, WildcardFragment(pattern)))
    || pattern == filename
  }

  /** A file is ignorable when some pattern of the list matches it. */
  predicate Ignored(filename: string, patterns: seq<string>)
  {
    exists p :: p in patterns && Matches(filename, p)
  }

  /**
   `isIgnorable`: walks the patterns in order and answers true at the first
   one that matches, false when none does.
   */
  method IsIgnorable(filename: string, patterns: seq<string>) returns (ignorable: bool)
    ensures ignorable <==> Ignored(filename, patterns)
  {
    for i := 0 to |patterns|
      invariant forall j :: 0 <= j < i ==> !Matches(filename, patterns[j])
    {
      var pattern := patterns[i];
      if '*' in pattern {
        SplitHasSecondPiece(pattern, '*');
        var ext := Split(pattern, '*')[1];
        if Contains(filename, ext) {
          assert Matches(filename, patterns[i]);
          return true;
        }
      }
      if pattern == filename {
        assert Matches(filename, patterns[i]);
        return true;
      }
    }
    return false;
  }

  /** With no patterns nothing is ignored. */
  lemma NoPatternsIgnoreNothing(filename: string)
    ensures !Ignored(filename, [])
  {
  }

  /** A file name listed verbatim is ignored. */
  lemma ExactNameIgnored(filename: string, patterns: seq<string>)
    requires filename in patterns
    ensures Ignored(filename, patterns)
  {
  }

  /** A wildcard pattern ignores every file name in which its fragment occurs,
      at any position. */
  lemma FragmentOccurrenceIgnored(filename: string, pattern: string, patterns: seq<string>, at: int)
    requires pattern in patterns && '*' in pattern
    requires OccursAt(filename, WildcardFragment(pattern), at)
    ensures Ignored(filename, patterns)
  {
  }

  /** A wildcard pattern whose fragment is empty ignores every file name. */
  lemma EmptyFragmentIgnoresAll(filename: string, pattern: string, patterns: seq<string>)
    requires pattern in patterns && '*' in pattern
    requires WildcardFragment(pattern) == ""
    ensures Ignored(filename, patterns)
  {
  }

  /** Whether a file is ignorable depends on the patterns only as a set:
      adding patterns never un-ignores a file ... */
  lemma MorePatternsIgnoreMore(filename: string, ps: seq<string>, qs: seq<string>)
    requires forall p :: p in ps ==> p in qs
    ensures Ignored(filename, ps) ==> Ignored(filename, qs)
  {
  }

  /** ... so reordering (or duplicating) patterns changes nothing, ... */
  lemma PatternOrderIrrelevant(filename: string, ps: seq<string>, qs: seq<string>)
    requires multiset(ps) == multiset(qs)
    ensures Ignored(filename, ps) <==> Ignored(filename, qs)
  {
    forall p | p in ps ensures p in qs {
      assert p in multiset(ps);
    }
    forall q | q in qs ensures q in ps {
      assert q in multiset(qs);
    }
    MorePatternsIgnoreMore(filename, ps, qs);
    MorePatternsIgnoreMore(filename, qs, ps);
  }

  /** ... and two pattern lists together ignore exactly what either ignores. */
  lemma IgnoredByConcatenation(filename: string, ps: seq<string>, qs: seq<string>)
    ensures Ignored(filename, ps + qs) <==> Ignored(filename, ps) || Ignored(filename, qs)
  {
  }

  /** The fragments of `*`, `foo*` and `*.md`. */
  lemma FragmentExamples()
    ensures WildcardFragment("*") == ""
    ensures WildcardFragment("foo*") == ""
    ensures WildcardFragment("*.md") == ".md"
    ensures WildcardFragment("*.go") == ".go"
  {
  }

  /** `*x`, with no further `*` in `x`, has fragment `x`. */
  lemma FragmentOfLeadingStar(x: string)
    requires '*' !in x
    ensures '*' in "*" + x && WildcardFragment("*" + x) == x
  {
  }

  /** `x*`, with no `*` in `x`, has the empty fragment. */
  lemma FragmentOfTrailingStar(x: string)
    requires '*' !in x
    ensures '*' in x + "*" && WildcardFragment(x + "*") == ""
  {
  }

  /** `*.md` ignores `README.md` and, being a substring test, also
      `a.md.txt`, but not `main.go`. */
  lemma MarkdownPatternExamples()
    ensures Ignored("README.md", ["*.md"])
    ensures Ignored("a.md.txt", ["*.md"])
    ensures !Ignored("main.go", ["*.md"])
  {
    LiteralExampleIgnored("README.md", ".md", 6);
    LiteralExampleIgnored("a.md.txt", ".md", 1);
    LiteralExampleNotIgnored("main.go", ".md", 4);
  }

  /** `*.go` ignores `main.go` and also `x.gomod`, but not `main.txt`. */
  lemma GoPatternExamples()
    ensures Ignored("main.go", ["*.go"])
    ensures Ignored("x.gomod", ["*.go"])
    ensures !Ignored("main.txt", ["*.go"])
  {
    LiteralExampleIgnored("main.go", ".go", 4);
    assert "x.gomod"[1..4] == ['.', 'g', 'o'];
    LiteralExampleIgnored("x.gomod", ".go", 1);
    LiteralExampleNotIgnored("main.txt", ".go", 4);
  }

  /** Helper for the example lemmas only: the pattern `*` followed by a
      three-character `x` ignores a name in which `x` occurs. */
  lemma LiteralExampleIgnored(filename: string, x: string, at: int)
    requires |x| == 3 && '*' !in x && OccursAt(filename, x, at)
    ensures Ignored(filename, [['*', x[0], x[1], x[2]]])
  {
    assert "*" + x == ['*', x[0], x[1], x[2]];
    OccurrenceIgnored(filename, x, at);
  }

  /** Helper for the example lemmas only: the same pattern does not ignore a
      name in which `x[0]` occurs only at `k`, not followed by `x[1]`. */
  lemma LiteralExampleNotIgnored(filename: string, x: string, k: int)
    requires |x| == 3 && '*' !in x && 0 <= k < |filename| - 1
    requires filename[k] == x[0] && filename[k + 1] != x[1]
    requires forall m :: 0 <= m < |filename| && m != k ==> filename[m] != x[0]
    ensures !Ignored(filename, [['*', x[0], x[1], x[2]]])
  {
    var p := "*" + x;
    assert p == ['*', x[0], x[1], x[2]];
    FragmentOfLeadingStar(x);
    LiteralExampleNoOccurrence(filename, x, k);
    OnlyPattern(filename, p);
  }

  /** The single pattern `*x` ignores a file name in which `x` occurs. */
  lemma OccurrenceIgnored(filename: string, x: string, at: int)
    requires '*' !in x && OccursAt(filename, x, at)
    ensures Ignored(filename, ["*" + x])
  {
    FragmentOfLeadingStar(x);
    FragmentOccurrenceIgnored(filename, "*" + x, ["*" + x], at);
  }

  /** A single pattern ignores exactly what it matches. */
  lemma OnlyPattern(filename: string, pattern: string)
    ensures Ignored(filename, [pattern]) <==> Matches(filename, pattern)
  {
  }

  /** Helper for the example lemmas only: `sub` does not occur in `s` when
      its first character occurs in `s` only at `k`, and is not followed there
      by the second character of `sub`. */
  lemma LiteralExampleNoOccurrence(s: string, sub: string, k: int)
    requires |sub| >= 2 && 0 <= k < |s| - 1
    requires s[k] == sub[0] && s[k + 1] != sub[1]
    requires forall m :: 0 <= m < |s| && m != k ==> s[m] != sub[0]
    ensures !Contains(s, sub)
  {
  }
}
