/** Strings as the Rust and Python standard libraries treat them: whitespace
    trimming, repeated prefix stripping, substring search and line splitting. */
module Text {

  datatype Option<+T> = None | Some(value: T)

  /** The values of all, or none if one is missing. */
  function All<T>(xs: seq<Option<T>>): Option<seq<T>> {
    if xs == [] then Some([])
    else
      match (All(xs[..|xs| - 1]), xs[|xs| - 1])
      case (Some(front), Some(last)) => Some(front + [last])
      case (_, _) => None
  }

  lemma {:induction false} AllMeaning<T>(xs: seq<Option<T>>)
    ensures All(xs).Some? <==> forall i :: 0 <= i < |xs| ==> xs[i].Some?
    ensures All(xs).Some? ==> |All(xs).value| == |xs|
    ensures All(xs).Some? ==> forall i :: 0 <= i < |xs| ==> xs[i] == Some(All(xs).value[i])
  {
    if xs != [] {
      var front := xs[..|xs| - 1];
      AllMeaning(front);
      assert forall i :: 0 <= i < |front| ==> front[i] == xs[i];
    }
  }

  type CharClass = char -> bool

  /** Unicode White_Space, the class behind Rust's `str::trim`. */
  predicate RustSpace(c: char) {
    var n := c as int;
    || 0x09 <= n <= 0x0D || n == 0x20 || n == 0x85 || n == 0xA0 || n == 0x1680
    || 0x2000 <= n <= 0x200A || n == 0x2028 || n == 0x2029 || n == 0x202F || n == 0x205F
    || n == 0x3000
  }

  /** Python's `str.isspace` adds the four information separators. */
  predicate PythonSpace(c: char) {
    RustSpace(c) || 0x1C <= c as int <= 0x1F
  }

  /** Among ASCII characters: tab to carriage return and the blank are white to both, the four
      separators to Python alone. */
  lemma AsciiSpace(c: char)
    requires c as int < 0x80
    ensures RustSpace(c) <==> 9 <= c as int <= 13 || c == ' '
    ensures PythonSpace(c) <==> 9 <= c as int <= 13 || 28 <= c as int <= 31 || c == ' '
  {
  }

  // ---- trimming -----------------------------------------------------------

  function TrimStart(space: CharClass, s: string): string {
    if s != "" && space(s[0]) then TrimStart(space, s[1..]) else s
  }

  function TrimEnd(space: CharClass, s: string): string {
    if s != "" && space(s[|s| - 1]) then TrimEnd(space, s[..|s| - 1]) else s
  }

  function Trim(space: CharClass, s: string): string {
    TrimEnd(space, TrimStart(space, s))
  }

  /** Empty, or neither the first nor the last character is white. */
  predicate Trimmed(space: CharClass, s: string) {
    s == "" || (!space(s[0]) && !space(s[|s| - 1]))
  }

  lemma {:induction false} TrimStartCut(space: CharClass, s: string) returns (i: nat)
    ensures i <= |s| && TrimStart(space, s) == s[i..]
    ensures forall k :: 0 <= k < i ==> space(s[k])
    ensures i < |s| ==> !space(s[i])
  {
    if s != "" && space(s[0]) {
      var j := TrimStartCut(space, s[1..]);
      i := j + 1;
      assert s[1..][j..] == s[i..];
      assert forall k :: 1 <= k < i ==> s[k] == s[1..][k - 1];
    } else {
      i := 0;
    }
  }

  lemma {:induction false} TrimEndCut(space: CharClass, s: string) returns (i: nat)
    ensures i <= |s| && TrimEnd(space, s) == s[..i]
    ensures forall k :: i <= k < |s| ==> space(s[k])
    ensures 0 < i ==> !space(s[i - 1])
  {
    if s != "" && space(s[|s| - 1]) {
      i := TrimEndCut(space, s[..|s| - 1]);
      assert s[..|s| - 1][..i] == s[..i];
    } else {
      i := |s|;
      assert s[..i] == s;
    }
  }

  /** What trimming means: the text between two white margins, itself trimmed. */
  lemma TrimCut(space: CharClass, s: string) returns (i: nat, j: nat)
    ensures i <= j <= |s| && Trim(space, s) == s[i..j]
    ensures forall k :: 0 <= k < i || j <= k < |s| ==> space(s[k])
    ensures Trimmed(space, Trim(space, s))
  {
    i := TrimStartCut(space, s);
    var m := TrimEndCut(space, s[i..]);
    j := i + m;
    assert s[i..][..m] == s[i..j];
    assert forall k :: j <= k < |s| ==> s[k] == s[i..][k - i];
    if 0 < m { assert s[i..j][0] == s[i] && s[i..j][m - 1] == s[i..][m - 1]; }
  }

  /** Trimming keeps exactly the trimmed texts. */
  lemma TrimFixed(space: CharClass, s: string)
    ensures Trim(space, s) == s <==> Trimmed(space, s)
  {
    var i, j := TrimCut(space, s);
  }

  /** A white margin on either side is invisible to Trim. */
  lemma TrimEndPadding(space: CharClass, s: string, c: char)
    requires space(c)
    ensures TrimEnd(space, s + [c]) == TrimEnd(space, s)
  {
    assert (s + [c])[..|s|] == s;
  }

  lemma TrimPadding(space: CharClass, s: string, c: char)
    requires space(c)
    ensures Trim(space, s + [c]) == Trim(space, s)
    ensures Trim(space, [c] + s) == Trim(space, s)
  {
    assert ([c] + s)[1..] == s;
    var i := TrimStartCut(space, s);
    var j := TrimStartCut(space, s + [c]);
    if i < |s| {
      assert (s + [c])[i] == s[i] && forall k :: 0 <= k < i ==> (s + [c])[k] == s[k];
      assert j == i;
      assert (s + [c])[i..] == s[i..] + [c];
      TrimEndPadding(space, s[i..], c);
    } else {
      assert forall k :: 0 <= k < |s + [c]| ==> space((s + [c])[k]);
      assert j == |s| + 1;
    }
  }

  // ---- prefixes and search ------------------------------------------------

  /** Rust's `trim_start_matches(pattern)`: strips the pattern as often as it occurs. */
  function StripAll(pattern: string, s: string): string
    requires pattern != ""
    decreases |s|
  {
    if pattern <= s then StripAll(pattern, s[|pattern|..]) else s
  }

  lemma StripOne(pattern: string, s: string)
    requires pattern != ""
    ensures StripAll(pattern, pattern + s) == StripAll(pattern, s)
  {
    assert (pattern + s)[|pattern|..] == s;
  }

  /** Position of the first occurrence of `c`. */
  function FindChar(s: string, c: char): (r: Option<nat>)
    ensures r.None? <==> c !in s
    ensures r.Some? ==> r.value < |s| && s[r.value] == c && c !in s[..r.value]
  {
    if s == "" then None
    else if s[0] == c then Some(0)
    else
      match FindChar(s[1..], c)
      case None =>
        assert s == [s[0]] + s[1..];
        None
      case Some(i) =>
        assert s[..i + 1] == [s[0]] + s[1..][..i];
        Some(i + 1)
  }

  /** The first occurrence is the one after a text free of `c`. */
  lemma {:induction false} FindCharAt(before: string, c: char, after: string)
    requires c !in before
    ensures FindChar(before + [c] + after, c) == Some(|before|)
  {
    if before != "" {
      assert (before + [c] + after)[1..] == before[1..] + [c] + after;
      FindCharAt(before[1..], c, after);
    }
  }

  // ---- lines --------------------------------------------------------------

  function StripCarriageReturn(line: string): string {
    if line != "" && line[|line| - 1] == '\r' then line[..|line| - 1] else line
  }

  /** Rust's `str::lines`: split after every newline, drop "\n" or "\r\n". */
  function Lines(s: string): seq<string>
    decreases |s|
  {
    if s == "" then []
    else
      match FindChar(s, '\n')
      case None => [s]
      case Some(i) => [StripCarriageReturn(s[..i])] + Lines(s[i + 1..])
  }

  /** A line ends before its newline and a carriage return there, or at the end of the text. */
  lemma LineEnds(line: string, rest: string)
    requires '\n' !in line
    ensures Lines(line + "\n" + rest)
         == [if line != "" && line[|line| - 1] == '\r' then line[..|line| - 1] else line] + Lines(rest)
    ensures Lines(line) == if line == "" then [] else [line]
  {
    var s := line + ['\n'] + rest;
    FindCharAt(line, '\n', rest);
    assert s[..|line|] == line && s[|line| + 1..] == rest;
    assert s == line + "\n" + rest;
  }

  /** Python's `s.split(c)`: the texts between the occurrences of `c`. */
  function SplitOn(s: string, c: char): (parts: seq<string>)
    ensures parts != []
    decreases |s|
  {
    match FindChar(s, c)
    case None => [s]
    case Some(i) => [s[..i]] + SplitOn(s[i + 1..], c)
  }

  lemma SplitFirst(part: string, c: char, rest: string)
    requires c !in part
    ensures SplitOn(part + [c] + rest, c) == [part] + SplitOn(rest, c)
  {
    var s := part + [c] + rest;
    FindCharAt(part, c, rest);
    assert s[..|part|] == part && s[|part| + 1..] == rest;
  }

  function LastPart(s: string, c: char): string {
    var parts := SplitOn(s, c);
    parts[|parts| - 1]
  }

  lemma FindNothing(s: string, c: char)
    requires c !in s
    ensures SplitOn(s, c) == [s] && LastPart(s, c) == s
  {
  }

  /** The last part is what follows the last occurrence. */
  lemma {:induction false} LastPartIs(a: string, c: char, b: string)
    requires c !in b
    ensures LastPart(a + [c] + b, c) == b
    decreases |a|
  {
    var s := a + [c] + b;
    match FindChar(a, c)
    case None =>
      SplitFirst(a, c, b);
      FindNothing(b, c);
    case Some(i) =>
      var part, rest := a[..i], a[i + 1..];
      assert a == part + [c] + rest;
      assert s == part + [c] + (rest + [c] + b);
      SplitFirst(part, c, rest + [c] + b);
      LastPartIs(rest, c, b);
  }

  lemma {:induction false} BeforeLastPart(s: string, c: char) returns (dir: string)
    requires c in s
    ensures s == dir + [c] + LastPart(s, c)
    decreases |s|
  {
    var i := FindChar(s, c).value;
    var part, rest := s[..i], s[i + 1..];
    assert s == part + [c] + rest;
    SplitFirst(part, c, rest);
    assert LastPart(s, c) == LastPart(rest, c);
    if c in rest {
      var inner := BeforeLastPart(rest, c);
      dir := part + [c] + inner;
      JoinThree(part, c, inner, LastPart(rest, c));
    } else {
      FindNothing(rest, c);
      dir := part;
    }
  }

  lemma LastPartIff(s: string, c: char, name: string)
    requires c !in name
    ensures LastPart(s, c) == name <==> s == name || exists dir :: s == dir + [c] + name
  {
    if dir :| s == dir + [c] + name {
      LastPartIs(dir, c, name);
    }
    if c in s {
      var dir := BeforeLastPart(s, c);
    } else {
      FindNothing(s, c);
    }
  }

  lemma JoinThree(a: string, c: char, b: string, d: string)
    ensures a + [c] + (b + [c] + d) == (a + [c] + b) + [c] + d
  {
  }

  /** Every line terminated by a newline. */
  function Unlines(lines: seq<string>): string {
    if lines == [] then "" else lines[0] + "\n" + Unlines(lines[1..])
  }

  lemma {:induction false} UnlinesAppend(a: seq<string>, b: seq<string>)
    ensures Unlines(a + b) == Unlines(a) + Unlines(b)
  {
    if a == [] {
      assert a + b == b;
    } else {
      assert (a + b)[1..] == a[1..] + b;
      UnlinesAppend(a[1..], b);
    }
  }

  /** A text that `lines` can give back: one line, no carriage return at its end. */
  predicate SingleLine(line: string) {
    '\n' !in line && (line != "" ==> line[|line| - 1] != '\r')
  }

  lemma {:induction false} LinesUnlines(lines: seq<string>)
    requires forall l :: l in lines ==> SingleLine(l)
    ensures Lines(Unlines(lines)) == lines
  {
    if lines != [] {
      var l, rest := lines[0], Unlines(lines[1..]);
      var s := Unlines(lines);
      assert s == l + ['\n'] + rest;
      assert l in lines;
      FindCharAt(l, '\n', rest);
      assert s[..|l|] == l && s[|l| + 1..] == rest;
      LinesUnlines(lines[1..]);
      assert lines == [l] + lines[1..];
    }
  }

  lemma {:induction false} LinesAreNewlineFree(s: string)
    ensures forall l :: l in Lines(s) ==> '\n' !in l
    decreases |s|
  {
    if s != "" {
      match FindChar(s, '\n')
      case None =>
      case Some(i) =>
        LinesAreNewlineFree(s[i + 1..]);
        var head, rest := s[..i], Lines(s[i + 1..]);
        var first := StripCarriageReturn(head);
        assert '\n' !in head && first <= head;
        assert Lines(s) == [first] + rest;
        forall l | l in Lines(s)
          ensures '\n' !in l
        {
          assert l == first || l in rest;
          if l == first { PrefixFree(first, head, '\n'); }
        }
    }
  }

  lemma PrefixFree(a: string, b: string, c: char)
    requires a <= b && c !in b
    ensures c !in a
  {
  }
}
