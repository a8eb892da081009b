/** The file policy's path patterns: backtracking match, its meaning, and specificity. */
module PathGlob {
  import opened Text

  /** `fnmatch.fnmatchcase(name, pattern)` on one path segment. */
  type SegmentMatch = (string, string) -> bool

  const ANY := "**"
  const STAR := "*"

  // ---- matching -----------------------------------------------------------

  predicate MatchParts(fn: SegmentMatch, pat: seq<string>, path: seq<string>)
    decreases |pat|
  {
    if pat == [] then path == []
    else if pat[0] == ANY then
      |pat| == 1 || exists i :: 0 <= i <= |path| && MatchParts(fn, pat[1..], path[i..])
    else path != [] && fn(path[0], pat[0]) && MatchParts(fn, pat[1..], path[1..])
  }

  /** The recursive search as the script runs it. */
  method Search(fn: SegmentMatch, pat: seq<string>, path: seq<string>) returns (found: bool)
    ensures found == MatchParts(fn, pat, path)
    decreases |pat|
  {
    if pat == [] {
      return path == [];
    }
    var head, tail := pat[0], pat[1..];
    if head == ANY {
      if tail == [] {
        return true;
      }
      for i := 0 to |path| + 1
        invariant forall k :: 0 <= k < i ==> !MatchParts(fn, tail, path[k..])
      {
        var hit := Search(fn, tail, path[i..]);
        if hit {
          return true;
        }
      }
      return false;
    }
    if path == [] {
      return false;
    }
    if !fn(path[0], head) {
      return false;
    }
    found := Search(fn, tail, path[1..]);
  }

  /** Cut points for a pattern: segment `k` of the pattern takes the path segments from
      `cuts[k]` up to `cuts[k + 1]`, one matching segment unless it is a double star. */
  ghost predicate IsCut(fn: SegmentMatch, pat: seq<string>, path: seq<string>, cuts: seq<nat>) {
    && |cuts| == |pat| + 1
    && cuts[0] == 0 && cuts[|pat|] == |path|
    && forall k :: 0 <= k < |pat| ==> Piece(fn, pat[k], path, cuts[k], cuts[k + 1])
  }

  ghost predicate Piece(fn: SegmentMatch, segment: string, path: seq<string>, from: nat, to: nat) {
    from <= to <= |path| && (segment == ANY || (to == from + 1 && fn(path[from], segment)))
  }

  /** The search succeeds exactly when the path can be cut along the pattern. */
  lemma MatchIffCut(fn: SegmentMatch, pat: seq<string>, path: seq<string>)
    ensures MatchParts(fn, pat, path) <==> exists cuts :: IsCut(fn, pat, path, cuts)
  {
    if MatchParts(fn, pat, path) {
      var cuts := MatchHasCut(fn, pat, path);
    }
    forall cuts | IsCut(fn, pat, path, cuts)
      ensures MatchParts(fn, pat, path)
    {
      CutMatches(fn, pat, path, cuts);
    }
  }

  lemma {:induction false} MatchHasCut(fn: SegmentMatch, pat: seq<string>, path: seq<string>) returns (cuts: seq<nat>)
    requires MatchParts(fn, pat, path)
    ensures IsCut(fn, pat, path, cuts)
    decreases |pat|
  {
    if pat == [] {
      cuts := [0];
    } else if pat == [ANY] {
      cuts := [0, |path|];
    } else {
      var i: nat := 1;
      if pat[0] == ANY {
        i :| 0 <= i <= |path| && MatchParts(fn, pat[1..], path[i..]);
      }
      var rest := MatchHasCut(fn, pat[1..], path[i..]);
      cuts := [0] + seq(|rest|, k requires 0 <= k < |rest| => rest[k] + i);
      forall k | 0 <= k < |pat|
        ensures Piece(fn, pat[k], path, cuts[k], cuts[k + 1])
      {
        if 0 < k {
          assert Piece(fn, pat[1..][k - 1], path[i..], rest[k - 1], rest[k]);
        }
      }
    }
  }

  lemma {:induction false} CutMatches(fn: SegmentMatch, pat: seq<string>, path: seq<string>, cuts: seq<nat>)
    requires IsCut(fn, pat, path, cuts)
    ensures MatchParts(fn, pat, path)
    decreases |pat|
  {
    if pat != [] {
      var i := cuts[1];
      assert Piece(fn, pat[0], path, 0, i);
      CutsAscend(fn, pat, path, cuts);
      var rest: seq<nat> := seq(|pat|, k requires 0 <= k < |pat| => cuts[k + 1] - i);
      forall k | 0 <= k < |pat| - 1
        ensures Piece(fn, pat[1..][k], path[i..], rest[k], rest[k + 1])
      {
        assert Piece(fn, pat[k + 1], path, cuts[k + 1], cuts[k + 2]);
      }
      CutMatches(fn, pat[1..], path[i..], rest);
    }
  }

  lemma CutsAscend(fn: SegmentMatch, pat: seq<string>, path: seq<string>, cuts: seq<nat>)
    requires IsCut(fn, pat, path, cuts) && pat != []
    ensures forall k :: 1 <= k <= |pat| ==> cuts[1] <= cuts[k]
  {
    for n := 1 to |pat|
      invariant forall k :: 1 <= k <= n ==> cuts[1] <= cuts[k]
    {
      assert Piece(fn, pat[n], path, cuts[n], cuts[n + 1]);
    }
  }

  /** Two double stars in a row mean one, anywhere in a pattern. */
  lemma {:induction false} DoubleStarsCollapse(fn: SegmentMatch, a: seq<string>, b: seq<string>, path: seq<string>)
    ensures MatchParts(fn, a + [ANY, ANY] + b, path) <==> MatchParts(fn, a + [ANY] + b, path)
    decreases |a|
  {
    var two, one := a + [ANY, ANY] + b, a + [ANY] + b;
    if a == [] {
      assert two == [ANY] + one && two[1..] == one;
      if b == [] {
        assert one == [ANY] && MatchParts(fn, one, path[0..]);
      } else {
        SkipSomeThenMore(fn, one, path);
      }
    } else {
      assert two[1..] == a[1..] + [ANY, ANY] + b && one[1..] == a[1..] + [ANY] + b;
      assert two[0] == one[0] && |two| > 1 && |one| > 1;
      forall i | 0 <= i <= |path| { DoubleStarsCollapse(fn, a[1..], b, path[i..]); }
      if path != [] { DoubleStarsCollapse(fn, a[1..], b, path[1..]); }
    }
  }

  lemma SkipSomeThenMore(fn: SegmentMatch, one: seq<string>, path: seq<string>)
    requires |one| > 1 && one[0] == ANY
    ensures (exists i :: 0 <= i <= |path| && MatchParts(fn, one, path[i..])) <==> MatchParts(fn, one, path)
  {
    assert path[0..] == path;
    forall i | 0 <= i <= |path| && MatchParts(fn, one, path[i..])
      ensures MatchParts(fn, one, path)
    {
      var j :| 0 <= j <= |path[i..]| && MatchParts(fn, one[1..], path[i..][j..]);
      assert path[i..][j..] == path[i + j..];
    }
  }

  predicate GlobMatch(fn: SegmentMatch, pattern: string, path: string) {
    var parts, pathParts := SplitOn(pattern, '/'), SplitOn(path, '/');
    if '/' !in pattern then fn(LastPart(path, '/'), pattern)
    else MatchParts(fn, parts, pathParts)
  }

  /** A pattern with a slash is cut along the whole path ... */
  lemma SlashedGlob(fn: SegmentMatch, pattern: string, path: string, pat: seq<string>, parts: seq<string>)
    requires '/' in pattern && pat == SplitOn(pattern, '/') && parts == SplitOn(path, '/')
    ensures GlobMatch(fn, pattern, path) <==> exists cuts :: IsCut(fn, pat, parts, cuts)
  {
    MatchIffCut(fn, pat, parts);
  }

  /** ... and one without is held against the name of the file, in whatever directory. */
  lemma PlainGlob(fn: SegmentMatch, pattern: string, dir: string, name: string)
    requires '/' !in pattern && '/' !in name
    ensures GlobMatch(fn, pattern, name) <==> fn(name, pattern)
    ensures GlobMatch(fn, pattern, dir + ['/'] + name) <==> fn(name, pattern)
  {
    FindNothing(name, '/');
    LastPartIs(dir, '/', name);
  }

  /** A pattern without a slash means the same below any directory. */
  lemma SlashFreeIsAnywhere(fn: SegmentMatch, pattern: string, path: string)
    requires '/' !in pattern && forall name :: fn(name, ANY)
    ensures GlobMatch(fn, pattern, path) <==> GlobMatch(fn, "**/" + pattern, path)
  {
    assert "**/" + pattern == ANY + ['/'] + pattern;
    SplitFirst(ANY, '/', pattern);
    var parts := SplitOn(path, '/');
    assert SplitOn("**/" + pattern, '/') == [ANY, pattern];
    assert [ANY, pattern][1..] == [pattern];
    forall i | 0 <= i <= |parts|
      ensures MatchParts(fn, [pattern], parts[i..]) <==>
        pattern == ANY || (i == |parts| - 1 && fn(parts[|parts| - 1], pattern))
    {
      assert [pattern][1..] == [];
      assert i < |parts| ==> (parts[i..][1..] == [] <==> i == |parts| - 1);
    }
    assert parts[0..] == parts;
    assert '/' in "**/" + pattern;
    assert MatchParts(fn, [pattern], parts[|parts| - 1..]) <==>
      pattern == ANY || fn(parts[|parts| - 1], pattern);
  }

  // ---- specificity --------------------------------------------------------

  function SegmentScore(segment: string): nat {
    if segment == ANY || segment == STAR then 0
    else if '*' !in segment && '?' !in segment then 2
    else 1
  }

  function Score(segments: seq<string>): nat {
    if segments == [] then 0
    else Score(segments[..|segments| - 1]) + SegmentScore(segments[|segments| - 1])
  }

  lemma ScoreAppend(segments: seq<string>, s: string)
    ensures Score(segments + [s]) == Score(segments) + SegmentScore(s)
  {
    assert (segments + [s])[..|segments|] == segments;
  }

  predicate Wild(segment: string) { '*' in segment || '?' in segment }

  /** What one segment adds: nothing for a bare star or two, one if it is partly wild, two if it
      is literal. */
  lemma SegmentAdds(segments: seq<string>, s: string)
    ensures Score([]) == 0
    ensures Score(segments + [s]) - Score(segments) ==
      if s == "**" || s == "*" then 0 else if '*' in s || '?' in s then 1 else 2
  {
    ScoreAppend(segments, s);
  }

  lemma {:induction false} ScoreConcat(a: seq<string>, b: seq<string>)
    ensures Score(a + b) == Score(a) + Score(b)
  {
    if b == [] {
      assert a + b == a;
    } else {
      var front, last := b[..|b| - 1], b[|b| - 1];
      assert a + b == (a + front) + [last] && b == front + [last];
      ScoreConcat(a, front);
      ScoreAppend(a + front, last);
      ScoreAppend(front, last);
    }
  }

  /** Spelling out a wild segment makes a pattern more specific, wherever it stands. */
  lemma LiteralScoresMore(a: seq<string>, b: seq<string>, exact: string, wild: string)
    requires !Wild(exact) && Wild(wild)
    ensures Score(a + [exact] + b) > Score(a + [wild] + b)
  {
    SegmentAdds(a, exact);
    SegmentAdds(a, wild);
    ScoreConcat(a + [exact], b);
    ScoreConcat(a + [wild], b);
    assert ANY[0] == '*' && STAR[0] == '*';
    assert '*' in ANY && '*' in STAR;
  }

  method GlobScore(pattern: string) returns (score: nat)
    ensures score == Score(SplitOn(pattern, '/'))
  {
    score := 0;
    var segments := SplitOn(pattern, '/');
    for i := 0 to |segments|
      invariant score == Score(segments[..i])
    {
      var segment := segments[i];
      ScoreAppend(segments[..i], segment);
      assert segments[..i + 1] == segments[..i] + [segment];
      if segment == ANY || segment == STAR {
        continue;
      }
      score := score + 1;
      if '*' !in segment && '?' !in segment {
        score := score + 1;
      }
    }
    assert segments[..|segments|] == segments;
  }

  const EXACT_BIAS := 1000

  function Count(s: string, c: char): nat {
    if s == "" then 0 else (if s[0] == c then 1 else 0) + Count(s[1..], c)
  }

  function ExactScore(path: string): nat { EXACT_BIAS + Count(path, '/') }

  lemma {:induction false} CountAppend(a: string, b: string, c: char)
    ensures Count(a + b, c) == Count(a, c) + Count(b, c)
  {
    if a == "" {
      assert a + b == b;
    } else {
      assert (a + b)[1..] == a[1..] + b;
      CountAppend(a[1..], b, c);
    }
  }

  lemma {:induction false} CountNone(s: string, c: char)
    ensures Count(s, c) == 0 <==> c !in s
  {
    if s != "" {
      CountNone(s[1..], c);
      assert s == [s[0]] + s[1..];
    }
  }

  lemma {:induction false} SplitCount(s: string, c: char)
    ensures |SplitOn(s, c)| == Count(s, c) + 1
    decreases |s|
  {
    match FindChar(s, c)
    case None => CountNone(s, c);
    case Some(i) =>
      SplitCount(s[i + 1..], c);
      assert s == s[..i] + ([c] + s[i + 1..]);
      assert ([c] + s[i + 1..])[1..] == s[i + 1..];
      CountAppend(s[..i], [c] + s[i + 1..], c);
      CountNone(s[..i], c);
  }

  /** An exact path is worth 999 and one for each of its segments. */
  lemma ExactScoreMeaning(path: string)
    ensures ExactScore(path) == 999 + |SplitOn(path, '/')|
  {
    SplitCount(path, '/');
  }

  function Plain(segments: seq<string>): nat {
    if segments == [] then 0 else (if segments[0] == ANY then 0 else 1) + Plain(segments[1..])
  }

  /** A pattern that matches has no more plain segments than the path has segments. */
  lemma {:induction false} PlainFits(fn: SegmentMatch, pat: seq<string>, path: seq<string>)
    requires MatchParts(fn, pat, path)
    ensures Plain(pat) <= |path|
    decreases |pat|
  {
    if pat != [] {
      if pat[0] != ANY {
        PlainFits(fn, pat[1..], path[1..]);
      } else if |pat| > 1 {
        var i :| 0 <= i <= |path| && MatchParts(fn, pat[1..], path[i..]);
        PlainFits(fn, pat[1..], path[i..]);
      }
    }
  }

  lemma {:induction false} PlainAppend(a: seq<string>, s: string)
    ensures Plain(a + [s]) == Plain(a) + (if s == ANY then 0 else 1)
  {
    if a != [] {
      assert (a + [s])[1..] == a[1..] + [s];
      PlainAppend(a[1..], s);
    }
  }

  lemma {:induction false} ScoreBounded(segments: seq<string>)
    ensures Score(segments) <= 2 * Plain(segments)
  {
    if segments != [] {
      var front, last := segments[..|segments| - 1], segments[|segments| - 1];
      ScoreBounded(front);
      PlainAppend(front, last);
      assert segments == front + [last];
    }
  }

  /** No glob that matches a path of fewer than 999 segments outscores the path itself. */
  lemma ExactPathWins(fn: SegmentMatch, glob: string, path: string)
    requires GlobMatch(fn, glob, path) && |SplitOn(path, '/')| < 999
    ensures Score(SplitOn(glob, '/')) < ExactScore(path)
  {
    SplitCount(path, '/');
    ScoreBounded(SplitOn(glob, '/'));
    if '/' in glob {
      PlainFits(fn, SplitOn(glob, '/'), SplitOn(path, '/'));
    } else {
      SplitCount(glob, '/');
      CountNone(glob, '/');
      assert SplitOn(glob, '/')[1..] == [];
      assert Plain(SplitOn(glob, '/')) <= 1;
    }
  }

  predicate Literal(s: string) { '*' !in s && '?' !in s && '[' !in s }

  lemma LiteralMatchesItself(fn: SegmentMatch, path: seq<string>)
    requires forall s :: s in path ==> Literal(s) && fn(s, s)
    ensures MatchParts(fn, path, path) && Score(path) == 2 * |path|
  {
    LiteralScore(path);
    LiteralSelfMatch(fn, path);
  }

  lemma {:induction false} LiteralScore(path: seq<string>)
    requires forall s :: s in path ==> Literal(s)
    ensures Score(path) == 2 * |path|
  {
    if path != [] {
      LiteralScore(path[..|path| - 1]);
      LiteralIsNotWild(path[|path| - 1]);
    }
  }

  lemma LiteralIsNotWild(s: string)
    requires Literal(s)
    ensures s != ANY && s != STAR
  {
    assert ANY[0] == '*' && STAR[0] == '*';
  }

  lemma {:induction false} LiteralSelfMatch(fn: SegmentMatch, path: seq<string>)
    requires forall s :: s in path ==> Literal(s) && fn(s, s)
    ensures MatchParts(fn, path, path)
  {
    if path != [] {
      LiteralIsNotWild(path[0]);
      LiteralSelfMatch(fn, path[1..]);
    }
  }

  lemma {:induction false} SplitKeepsChars(s: string, c: char, part: string)
    requires part in SplitOn(s, c)
    ensures forall x :: x in part ==> x in s
    decreases |s|
  {
    match FindChar(s, c)
    case None =>
    case Some(i) =>
      if part != s[..i] { SplitKeepsChars(s[i + 1..], c, part); }
  }

  /** The bias is exactly enough: for a literal path, "the exact entry always wins" holds
      for the paths of fewer than 999 segments and for no others. */
  lemma ExactPathWinsIff(fn: SegmentMatch, path: string)
    requires Literal(path) && forall s :: Literal(s) ==> fn(s, s)
    ensures (forall glob :: GlobMatch(fn, glob, path) ==> Score(SplitOn(glob, '/')) < ExactScore(path))
        <==> |SplitOn(path, '/')| < 999
  {
    var parts := SplitOn(path, '/');
    if |parts| < 999 {
      forall glob | GlobMatch(fn, glob, path)
        ensures Score(SplitOn(glob, '/')) < ExactScore(path)
      {
        ExactPathWins(fn, glob, path);
      }
    } else {
      SplitCount(path, '/');
      CountNone(path, '/');
      forall s | s in parts
        ensures Literal(s)
      {
        SplitKeepsChars(path, '/', s);
      }
      LiteralMatchesItself(fn, parts);
      assert GlobMatch(fn, path, path);
    }
  }
}
