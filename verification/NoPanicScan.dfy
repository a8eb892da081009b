/** The no-panic scanner: findings of one file, read through the block-comment remover. */
module NoPanicScan {
  import opened Text
  import opened BlockComments
  import opened TomlStrings

  datatype Finding = Finding(
    path: string, family: string, line: nat, column: nat, container: string, snippet: string)

  datatype Hit = Hit(family: string, column: nat)

  /** The regular expressions of the scanner, as functions of the stripped line. */
  datatype Detector = Detector(
    skip: string -> bool,
    container: string -> Option<string>,
    hits: string -> seq<Hit>)
  {
    /** An empty line shows nothing, every hit needs a visible character, and the names of
        families and containers have no bar, quote, backslash or control character. */
    ghost predicate Lawful() {
      && container("").None? && hits("") == []
      && (forall t :: container(t).Some? ==> ContainerName(container(t).value))
      && (forall t :: hits(t) != [] ==> Trim(PythonSpace, t) != "")
      && (forall t, h :: h in hits(t) ==> NameText(h.family))
    }
  }

  predicate NameText(s: string) { '|' !in s && Plain(s) }

  predicate ContainerName(c: string) { c != "" && NameText(c) }

  const FILE_CONTAINER := "<file>"

  /** The innermost item header read so far. */
  function ContainerAfter(d: Detector, texts: seq<string>, n: nat): string
    requires n <= |texts|
  {
    if n == 0 then FILE_CONTAINER
    else if !d.skip(texts[n - 1]) && d.container(texts[n - 1]).Some? then d.container(texts[n - 1]).value
    else ContainerAfter(d, texts, n - 1)
  }

  /** The findings on one line, in the order the patterns report them. */
  function LineFindings(path: string, hits: seq<Hit>, line: nat, container: string, text: string): seq<Finding> {
    seq(|hits|, k requires 0 <= k < |hits| =>
      Finding(path, hits[k].family, line, hits[k].column, container, Trim(PythonSpace, text)))
  }

  method ScanLine(path: string, hits: seq<Hit>, line: nat, container: string, text: string)
    returns (findings: seq<Finding>)
    ensures findings == LineFindings(path, hits, line, container, text)
  {
    findings := [];
    for k := 0 to |hits|
      invariant |findings| == k
      invariant forall j :: 0 <= j < k ==> findings[j] == LineFindings(path, hits, line, container, text)[j]
    {
      findings := findings
        + [Finding(path, hits[k].family, line, hits[k].column, container, Trim(PythonSpace, text))];
    }
  }

  /** The findings of the first `n` lines of a comment-free text. */
  function FindingsOf(path: string, d: Detector, texts: seq<string>, n: nat): seq<Finding>
    requires n <= |texts|
  {
    if n == 0 then []
    else if d.skip(texts[n - 1]) then FindingsOf(path, d, texts, n - 1)
    else
      FindingsOf(path, d, texts, n - 1)
      + LineFindings(path, d.hits(texts[n - 1]), n, ContainerAfter(d, texts, n), texts[n - 1])
  }

  // ---- what is reported, without the recursion ----------------------------

  /** Line `j` is a header naming `c`. */
  predicate HeaderAt(d: Detector, texts: seq<string>, j: nat, c: string) {
    j < |texts| && !d.skip(texts[j]) && d.container(texts[j]) == Some(c)
  }

  /** `c` is named by the last header of the first `n` lines, or is the file if there is none. */
  ghost predicate InnermostIn(d: Detector, texts: seq<string>, n: nat, c: string) {
    || (exists j: nat :: j < n && HeaderAt(d, texts, j, c)
          && forall k: nat, other :: j < k < n ==> !HeaderAt(d, texts, k, other))
    || (c == "<file>" && forall k: nat, other :: k < n ==> !HeaderAt(d, texts, k, other))
  }

  /** The container of a line is named by the last header at or above it. */
  lemma {:induction false} ContainerIsInnermost(d: Detector, texts: seq<string>, n: nat)
    requires n <= |texts|
    ensures InnermostIn(d, texts, n, ContainerAfter(d, texts, n))
  {
    if 0 < n {
      var c := ContainerAfter(d, texts, n);
      if HeaderAt(d, texts, n - 1, c) {
        assert forall k: nat, other :: n - 1 < k < n ==> !HeaderAt(d, texts, k, other);
      } else {
        ContainerIsInnermost(d, texts, n - 1);
        if j: nat :| j < n - 1 && HeaderAt(d, texts, j, c)
                     && forall k: nat, other :: j < k < n - 1 ==> !HeaderAt(d, texts, k, other) {
          assert forall k: nat, other :: j < k < n ==> !HeaderAt(d, texts, k, other);
        }
      }
    }
  }

  /** Hit `k` of line `i`. */
  predicate HitAt(d: Detector, texts: seq<string>, i: nat, k: nat) {
    i < |texts| && !d.skip(texts[i]) && k < |d.hits(texts[i])|
  }

  /** What is reported of a hit. */
  ghost predicate Reports(f: Finding, path: string, d: Detector, texts: seq<string>, i: nat, k: nat)
    requires HitAt(d, texts, i, k)
  {
    && f.path == path && f.line == i + 1
    && f.family == d.hits(texts[i])[k].family && f.column == d.hits(texts[i])[k].column
    && InnermostIn(d, texts, i + 1, f.container)
    && f.snippet == Trim(PythonSpace, texts[i])
  }

  /** The findings of line `i`, one for each hit in order, come after those of the lines above
      and before those of the lines below. */
  lemma {:induction false} FindingsInOrder(path: string, d: Detector, texts: seq<string>, n: nat, i: nat)
    requires i < n <= |texts|
    ensures var from, to := |FindingsOf(path, d, texts, i)|, |FindingsOf(path, d, texts, i + 1)|;
      && to == from + (if d.skip(texts[i]) then 0 else |d.hits(texts[i])|)
      && to <= |FindingsOf(path, d, texts, n)|
      && forall k: nat :: HitAt(d, texts, i, k) ==>
           Reports(FindingsOf(path, d, texts, n)[from + k], path, d, texts, i, k)
    ensures FindingsOf(path, d, texts, 0) == []
  {
    if i == n - 1 {
      ContainerIsInnermost(d, texts, n);
    } else {
      FindingsInOrder(path, d, texts, n - 1, i);
    }
  }

  ghost predicate ReportsSome(f: Finding, path: string, d: Detector, texts: seq<string>) {
    exists i: nat, k: nat :: HitAt(d, texts, i, k) && Reports(f, path, d, texts, i, k)
  }

  /** Every hit on a line that is not skipped is reported. */
  lemma EveryHitReported(path: string, d: Detector, texts: seq<string>, n: nat, i: nat, k: nat) returns (f: Finding)
    requires i < n <= |texts| && HitAt(d, texts, i, k)
    ensures f in FindingsOf(path, d, texts, n) && Reports(f, path, d, texts, i, k)
  {
    FindingsInOrder(path, d, texts, n, i);
    f := FindingsOf(path, d, texts, n)[|FindingsOf(path, d, texts, i)| + k];
  }

  /** Nothing else is. */
  lemma {:induction false} OnlyHitsReported(path: string, d: Detector, texts: seq<string>, n: nat, f: Finding)
    requires n <= |texts| && f in FindingsOf(path, d, texts, n)
    ensures ReportsSome(f, path, d, texts)
  {
    if f in FindingsOf(path, d, texts, n - 1) {
      OnlyHitsReported(path, d, texts, n - 1, f);
    } else {
      var found := LineFindings(path, d.hits(texts[n - 1]), n, ContainerAfter(d, texts, n), texts[n - 1]);
      var k :| 0 <= k < |found| && found[k] == f;
      ContainerIsInnermost(d, texts, n);
      assert HitAt(d, texts, n - 1, k) && Reports(f, path, d, texts, n - 1, k);
    }
  }

  /** Exactly the hits are reported, with their innermost container. */
  ghost predicate ReportsExactly(findings: seq<Finding>, path: string, d: Detector, texts: seq<string>) {
    && (forall i: nat, k: nat :: HitAt(d, texts, i, k) ==>
          exists f :: f in findings && Reports(f, path, d, texts, i, k))
    && (forall f :: f in findings ==> ReportsSome(f, path, d, texts))
  }

  lemma FindingsAreHits(path: string, d: Detector, texts: seq<string>)
    ensures ReportsExactly(FindingsOf(path, d, texts, |texts|), path, d, texts)
  {
    forall i: nat, k: nat | HitAt(d, texts, i, k)
      ensures exists f :: f in FindingsOf(path, d, texts, |texts|) && Reports(f, path, d, texts, i, k)
    {
      var f := EveryHitReported(path, d, texts, |texts|, i, k);
    }
    forall f | f in FindingsOf(path, d, texts, |texts|)
      ensures ReportsSome(f, path, d, texts)
    {
      OnlyHitsReported(path, d, texts, |texts|, f);
    }
  }

  method ScanFile(path: string, d: Detector, lines: seq<string>) returns (findings: seq<Finding>)
    requires d.Lawful()
    ensures |StripLines(lines, false).texts| == |lines|
    ensures findings == FindingsOf(path, d, StripLines(lines, false).texts, |lines|)
    ensures ReportsExactly(findings, path, d, StripLines(lines, false).texts)
  {
    ghost var texts := StripLines(lines, false).texts;
    StripLinesNoOpener(lines, false);
    findings := [];
    var container := FILE_CONTAINER;
    var inBlockComment := false;
    for i := 0 to |lines|
      invariant container == ContainerAfter(d, texts, i)
      invariant inBlockComment == StripLines(lines[..i], false).inside
      invariant findings == FindingsOf(path, d, texts, i)
    {
      StripLinesAt(lines, i, false);
      var kept, inside := StripOneLine(lines[i], inBlockComment);
      inBlockComment := inside;
      if kept.None? || d.skip(kept.value) {
        continue;
      }
      var line := kept.value;
      if d.container(line).Some? {
        container := d.container(line).value;
      }
      var found := ScanLine(path, d.hits(line), i + 1, container, line);
      findings := findings + found;
    }
    FindingsAreHits(path, d, texts);
  }

  /** The indexed view of a run: line `i` is stripped in the mode the lines before it end in. */
  lemma {:induction false} StripLinesAt(lines: seq<string>, i: nat, inside: bool)
    requires i < |lines|
    ensures |StripLines(lines, inside).texts| == |lines|
    ensures StripLines(lines, inside).texts[i] == StripLine(lines[i], StripLines(lines[..i], inside).inside).text
    ensures StripLines(lines[..i + 1], inside).inside
         == StripLine(lines[i], StripLines(lines[..i], inside).inside).inside
  {
    StripLinesNoOpener(lines, inside);
    var first := StripLine(lines[0], inside);
    if i == 0 {
      assert lines[..0] == [] && lines[..1] == [lines[0]] && [lines[0]][1..] == [];
    } else {
      StripLinesAt(lines[1..], i - 1, first.inside);
      assert lines[..i][1..] == lines[1..][..i - 1];
      assert lines[..i + 1][1..] == lines[1..][..i];
    }
  }

  /** What the ledger needs of a finding. */
  predicate Usable(f: Finding) {
    ContainerName(f.container) && Trimmed(PythonSpace, f.snippet) && f.snippet != "" && NameText(f.family)
  }

  lemma {:induction false} ContainerNamed(d: Detector, texts: seq<string>, n: nat)
    requires d.Lawful() && n <= |texts|
    ensures ContainerName(ContainerAfter(d, texts, n))
  {
    if 0 < n {
      ContainerNamed(d, texts, n - 1);
    }
  }

  /** Every finding names a container and shows a visible, trimmed snippet, on a line in range. */
  lemma {:induction false} FindingsUsable(path: string, d: Detector, texts: seq<string>, n: nat)
    requires d.Lawful() && n <= |texts|
    ensures forall f :: f in FindingsOf(path, d, texts, n) ==> Usable(f) && f.path == path && 1 <= f.line <= n
  {
    if 0 < n {
      FindingsUsable(path, d, texts, n - 1);
      ContainerNamed(d, texts, n);
      var i, j := TrimCut(PythonSpace, texts[n - 1]);
      var hits := d.hits(texts[n - 1]);
      var found := LineFindings(path, hits, n, ContainerAfter(d, texts, n), texts[n - 1]);
      forall f | f in found
        ensures Usable(f) && f.path == path && f.line == n
      {
        var k :| 0 <= k < |hits| && f == found[k];
        assert hits[k] in hits;
      }
    }
  }

  lemma {:induction false} JoinInjective(a: seq<string>, b: seq<string>)
    requires a != [] && b != []
    requires (forall l :: l in a ==> '\n' !in l) && (forall l :: l in b ==> '\n' !in l)
    requires Join(a) == Join(b)
    ensures a == b
  {
    assert a[0] in a && b[0] in b;
    JoinHead(a);
    JoinHead(b);
    if 1 < |a| && 1 < |b| {
      assert Join(a)[|a[0]| + 1..] == Join(a[1..]) && Join(b)[|b[0]| + 1..] == Join(b[1..]);
      JoinInjective(a[1..], b[1..]);
      assert a == [a[0]] + a[1..] && b == [b[0]] + b[1..];
    }
  }

  lemma JoinHead(a: seq<string>)
    requires a != [] && '\n' !in a[0]
    ensures FindChar(Join(a), '\n') == if |a| == 1 then None else Some(|a[0]|)
    ensures if |a| == 1 then Join(a) == a[0] else |a[0]| < |Join(a)| && Join(a)[..|a[0]|] == a[0]
  {
    if 1 < |a| {
      assert Join(a) == a[0] + ['\n'] + Join(a[1..]);
      FindCharAt(a[0], '\n', Join(a[1..]));
    }
  }

  lemma {:induction false} CleanNewlineFree(line: string, inside: bool)
    requires '\n' !in line
    ensures '\n' !in Clean(line, inside).text
    decreases |line|
  {
    if line != "" {
      CleanNewlineFree(line[1..], inside);
      if 2 <= |line| { CleanNewlineFree(line[2..], !inside); }
    }
  }

  lemma {:induction false} StrippedNewlineFree(lines: seq<string>, inside: bool)
    requires (forall l :: l in lines ==> '\n' !in l) && LinesClean(lines, inside)
    ensures forall t :: t in StripLines(lines, inside).texts ==> '\n' !in t
  {
    if lines != [] {
      assert lines[0] in lines;
      StripLineAgreesIff(lines[0], inside);
      CleanNewlineFree(lines[0], inside);
      StrippedNewlineFree(lines[1..], Clean(lines[0], inside).inside);
    }
  }

  /** Comments are invisible: two files whose texts read the same once comments are removed
      by character, with no opener left, have the same findings. */
  lemma ScanIgnoresComments(path: string, d: Detector, a: seq<string>, b: seq<string>)
    requires a != [] && b != []
    requires (forall l :: l in a ==> '\n' !in l) && (forall l :: l in b ==> '\n' !in l)
    requires Clean(Join(a), false).text == Clean(Join(b), false).text
    requires !HasPair(Clean(Join(a), false).text, '/', '*')
    ensures StripLines(a, false).texts == StripLines(b, false).texts
    ensures |a| == |StripLines(a, false).texts| == |b|
    ensures FindingsOf(path, d, StripLines(a, false).texts, |a|) == FindingsOf(path, d, StripLines(b, false).texts, |b|)
  {
    StripLinesAgreeIff(a, false);
    StripLinesAgreeIff(b, false);
    JoinedClean(a, false);
    JoinedClean(b, false);
    StrippedNewlineFree(a, false);
    StrippedNewlineFree(b, false);
    StripLinesNoOpener(a, false);
    StripLinesNoOpener(b, false);
    JoinInjective(StripLines(a, false).texts, StripLines(b, false).texts);
  }
}
