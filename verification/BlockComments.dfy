/** The scanner's line-wise block-comment remover against a character machine on whole text. */
module BlockComments {
  import opened Text

  // ---- pairs of characters ------------------------------------------------

  predicate PairAt(s: string, a: char, b: char, i: nat) {
    i + 1 < |s| && s[i] == a && s[i + 1] == b
  }

  ghost predicate HasPair(s: string, a: char, b: char) {
    exists i: nat :: PairAt(s, a, b, i)
  }

  /** Python's `s.find(ab, from)` for a two-character pattern. */
  function FindPair(s: string, a: char, b: char, from: nat): (r: Option<nat>)
    ensures r.Some? ==> from <= r.value && PairAt(s, a, b, r.value)
    ensures forall i: nat :: from <= i && (r.Some? ==> i < r.value) ==> !PairAt(s, a, b, i)
    decreases |s| - from
  {
    if |s| <= from then None
    else if PairAt(s, a, b, from) then Some(from)
    else FindPair(s, a, b, from + 1)
  }

  // ---- the character machine ----------------------------------------------

  datatype Cleaned = Cleaned(text: string, inside: bool)

  /** Reads the text once: comments vanish, newlines stay, no token spans two lines. */
  function Clean(s: string, inside: bool): Cleaned
    decreases |s|
  {
    if s == "" then Cleaned("", inside)
    else if inside then
      if PairAt(s, '*', '/', 0) then Clean(s[2..], false)
      else if s[0] == '\n' then Emit(s[0], Clean(s[1..], true))
      else Clean(s[1..], true)
    else
      if PairAt(s, '/', '*', 0) then Clean(s[2..], true)
      else Emit(s[0], Clean(s[1..], false))
  }

  function Emit(c: char, rest: Cleaned): Cleaned {
    Cleaned([c] + rest.text, rest.inside)
  }

  // ---- the line-wise remover ----------------------------------------------

  /** One line outside a comment: cut the first comment, glue the ends, search again. */
  function Rescan(line: string): (r: Cleaned)
    ensures !HasPair(r.text, '/', '*')
    decreases |line|
  {
    match FindPair(line, '/', '*', 0)
    case None => Cleaned(line, false)
    case Some(start) =>
      match FindPair(line, '*', '/', start + 2)
      case None =>
        assert forall i: nat :: PairAt(line[..start], '/', '*', i) ==> PairAt(line, '/', '*', i);
        Cleaned(line[..start], true)
      case Some(end) => Rescan(line[..start] + line[end + 2..])
  }

  /** One line read in either mode; a line that ends where it began, inside, is skipped. */
  function StripLine(line: string, inside: bool): Cleaned {
    if inside then
      match FindPair(line, '*', '/', 0)
      case None => Cleaned("", true)
      case Some(end) => Rescan(line[end + 2..])
    else Rescan(line)
  }

  predicate Skipped(line: string, inside: bool) {
    inside && FindPair(line, '*', '/', 0).None?
  }

  method StripOneLine(raw: string, inBlockComment: bool) returns (kept: Option<string>, inside: bool)
    ensures kept == if Skipped(raw, inBlockComment) then None else Some(StripLine(raw, inBlockComment).text)
    ensures inside == StripLine(raw, inBlockComment).inside
    ensures kept.Some? ==> !HasPair(kept.value, '/', '*')
  {
    var line := raw;
    inside := inBlockComment;
    if inside {
      var end := FindPair(line, '*', '/', 0);
      if end.None? {
        return None, true;
      }
      line := line[end.value + 2..];
      inside := false;
    }
    ghost var target := Rescan(line);
    while true
      invariant !inside && Rescan(line) == target
      decreases |line|
    {
      var start := FindPair(line, '/', '*', 0);
      if start.None? {
        break;
      }
      var end := FindPair(line, '*', '/', start.value + 2);
      if end.None? {
        line := line[..start.value];
        inside := true;
        return Some(line), inside;
      }
      line := line[..start.value] + line[end.value + 2..];
    }
    return Some(line), inside;
  }

  // ---- one line -----------------------------------------------------------

  lemma {:induction false} CleanInside(s: string)
    requires '\n' !in s
    ensures Clean(s, true) ==
      match FindPair(s, '*', '/', 0)
      case None => Cleaned("", true)
      case Some(end) => Clean(s[end + 2..], false)
    decreases |s|
  {
    if s != "" && !PairAt(s, '*', '/', 0) {
      FindPairShift(s, '*', '/', 1);
      CleanInside(s[1..]);
      match FindPair(s[1..], '*', '/', 0)
      case None =>
      case Some(end) => assert s[1..][end + 2..] == s[end + 3..];
    }
  }

  lemma FindPairShift(s: string, a: char, b: char, k: nat)
    requires k <= |s|
    ensures FindPair(s, a, b, k) ==
      match FindPair(s[k..], a, b, 0)
      case None => None
      case Some(i) => Some(k + i)
  {
    assert forall i: nat :: PairAt(s[k..], a, b, i) <==> PairAt(s, a, b, k + i);
    var found := FindPair(s, a, b, k);
    if found.Some? {
      assert PairAt(s[k..], a, b, found.value - k);
    }
  }

  /** Text without a comment opener passes through, unless its end glues one together. */
  lemma {:induction false} CleanPrefix(a: string, b: string)
    requires !HasPair(a, '/', '*')
    requires a != "" && b != "" ==> !(a[|a| - 1] == '/' && b[0] == '*')
    ensures Clean(a + b, false) == Cleaned(a + Clean(b, false).text, Clean(b, false).inside)
  {
    if a == "" {
      assert a + b == b;
    } else {
      var s := a + b;
      assert s[0] == a[0] && s[1..] == a[1..] + b;
      assert !PairAt(a, '/', '*', 0);
      assert !PairAt(s, '/', '*', 0);
      assert forall i: nat :: PairAt(a[1..], '/', '*', i) ==> PairAt(a, '/', '*', i + 1);
      CleanPrefix(a[1..], b);
      assert a == [a[0]] + a[1..];
    }
  }

  lemma CleanOpened(line: string, start: nat)
    requires FindPair(line, '/', '*', 0) == Some(start)
    ensures Clean(line, false)
         == Cleaned(line[..start] + Clean(line[start + 2..], true).text, Clean(line[start + 2..], true).inside)
  {
    var a, b := line[..start], line[start..];
    assert line == a + b;
    assert forall i: nat :: PairAt(a, '/', '*', i) ==> PairAt(line, '/', '*', i);
    CleanPrefix(a, b);
    assert PairAt(b, '/', '*', 0) && b[2..] == line[start + 2..];
  }

  lemma CleanPlain(line: string)
    requires !HasPair(line, '/', '*')
    ensures Clean(line, false) == Cleaned(line, false)
  {
    CleanPrefix(line, "");
    assert line + "" == line;
  }

  /** Outside a comment the machine writes the next character, or opens a comment. */
  lemma CleanHead(s: string)
    requires s != "" && s[0] != '/'
    ensures Clean(s, false).text != "" && Clean(s, false).text[0] == s[0]
  {
  }

  lemma PrefixNoOpener(line: string, start: nat)
    requires FindPair(line, '/', '*', 0) == Some(start)
    ensures !HasPair(line[..start], '/', '*')
  {
    assert forall i: nat :: PairAt(line[..start], '/', '*', i) ==> PairAt(line, '/', '*', i);
  }

  /** A first comment that the line does not close. */
  lemma CleanUnclosed(line: string, start: nat)
    requires '\n' !in line
    requires FindPair(line, '/', '*', 0) == Some(start) && FindPair(line, '*', '/', start + 2).None?
    ensures Clean(line, false) == Cleaned(line[..start], true)
  {
    CleanOpened(line, start);
    FindPairShift(line, '*', '/', start + 2);
    CleanInside(line[start + 2..]);
    assert line[..start] + "" == line[..start];
  }

  /** A first comment that the line closes. */
  lemma CleanClosed(line: string, start: nat, end: nat)
    requires '\n' !in line
    requires FindPair(line, '/', '*', 0) == Some(start) && FindPair(line, '*', '/', start + 2) == Some(end)
    ensures Clean(line, false) == Cleaned(line[..start] + Clean(line[end + 2..], false).text,
                                          Clean(line[end + 2..], false).inside)
  {
    CleanOpened(line, start);
    FindPairShift(line, '*', '/', start + 2);
    CleanInside(line[start + 2..]);
    assert line[start + 2..][end - (start + 2) + 2..] == line[end + 2..];
  }

  /** Unless an opener survives, the glued line cleans to the same text. */
  lemma CleanGlued(a: string, b: string)
    requires !HasPair(a, '/', '*')
    requires !HasPair(a + Clean(b, false).text, '/', '*')
    ensures Clean(a + b, false) == Cleaned(a + Clean(b, false).text, Clean(b, false).inside)
  {
    if a != "" && b != "" && a[|a| - 1] == '/' && b[0] == '*' {
      CleanHead(b);
      assert PairAt(a + Clean(b, false).text, '/', '*', |a| - 1);
    } else {
      CleanPrefix(a, b);
    }
  }

  /** Where the cleaned line holds no opener, cutting and gluing computes it. */
  lemma {:induction false} RescanAgrees(line: string)
    requires '\n' !in line && !HasPair(Clean(line, false).text, '/', '*')
    ensures Rescan(line) == Clean(line, false)
    decreases |line|
  {
    match FindPair(line, '/', '*', 0)
    case None => CleanPlain(line);
    case Some(start) =>
      match FindPair(line, '*', '/', start + 2)
      case None => CleanUnclosed(line, start);
      case Some(end) =>
        CleanClosed(line, start, end);
        PrefixNoOpener(line, start);
        CleanGlued(line[..start], line[end + 2..]);
        RescanAgrees(line[..start] + line[end + 2..]);
  }

  /** Line by line, the remover is the machine exactly when no opener survives cleaning. */
  lemma StripLineAgreesIff(line: string, inside: bool)
    requires '\n' !in line
    ensures StripLine(line, inside) == Clean(line, inside) <==> !HasPair(Clean(line, inside).text, '/', '*')
    ensures StripLine(line, inside).text == Clean(line, inside).text
        <==> !HasPair(Clean(line, inside).text, '/', '*')
  {
    if inside {
      CleanInside(line);
      match FindPair(line, '*', '/', 0)
      case None =>
      case Some(end) =>
        if !HasPair(Clean(line, inside).text, '/', '*') { RescanAgrees(line[end + 2..]); }
    } else if !HasPair(Clean(line, inside).text, '/', '*') {
      RescanAgrees(line);
    }
  }

  predicate TripleAt(s: string, i: nat) { i + 2 < |s| && s[i] == '/' && s[i + 1] == '/' && s[i + 2] == '*' }

  /** A check on the raw line: only two slashes and a star can leave an opener behind. */
  lemma {:induction false} NoTripleNoOpener(s: string, inside: bool)
    requires forall i: nat :: !TripleAt(s, i)
    ensures !HasPair(Clean(s, inside).text, '/', '*')
    decreases |s|
  {
    if s != "" {
      assert forall i: nat :: TripleAt(s[1..], i) ==> TripleAt(s, i + 1);
      NoTripleNoOpener(s[1..], inside);
      if 2 <= |s| {
        assert forall i: nat :: TripleAt(s[2..], i) ==> TripleAt(s, i + 2);
        NoTripleNoOpener(s[2..], !inside);
      }
      EmitNoOpener(s, inside);
    }
  }

  lemma EmitNoOpener(s: string, inside: bool)
    requires s != "" && !TripleAt(s, 0)
    requires !HasPair(Clean(s[1..], inside).text, '/', '*')
    requires 2 <= |s| ==> !HasPair(Clean(s[2..], !inside).text, '/', '*')
    ensures !HasPair(Clean(s, inside).text, '/', '*')
  {
    var out, rest := Clean(s, inside).text, Clean(s[1..], inside).text;
    if (inside && !PairAt(s, '*', '/', 0) && s[0] == '\n') || (!inside && !PairAt(s, '/', '*', 0)) {
      assert out == [s[0]] + rest;
      forall i: nat | PairAt(out, '/', '*', i)
        ensures i == 0
      {
        if 0 < i { assert PairAt(rest, '/', '*', i - 1); }
      }
      assert !PairAt(out, '/', '*', 0);
    }
  }

  /** The gluing is real: removing a comment after a slash opens one the text never had. */
  lemma GluedOpener()
    ensures Clean("//**/*x", false) == Cleaned("/*x", false)
    ensures Rescan("//**/*x") == Cleaned("", true)
  {
    var s := "//**/*x";
    assert PairAt(s, '/', '*', 1) && !PairAt(s, '/', '*', 0);
    assert FindPair(s, '/', '*', 0) == Some(1);
    assert PairAt(s, '*', '/', 3);
    assert FindPair(s, '*', '/', 3) == Some(3);
    assert s[..1] + s[5..] == "/*x";
    assert PairAt("/*x", '/', '*', 0);
    assert FindPair("/*x", '/', '*', 0) == Some(0);
    assert FindPair("/*x", '*', '/', 2) == None;
    assert "/*x"[..0] == "";
    assert s[1..][2..] == "*/*x" && "*/*x"[2..] == "*x" && "*x"[1..] == "x" && "x"[1..] == "";
    assert Clean("x", false) == Cleaned("x", false);
    assert Clean("*x", false) == Cleaned("*x", false);
    assert PairAt("*/*x", '*', '/', 0);
    assert Clean("*/*x", true) == Cleaned("*x", false);
  }

  // ---- whole files --------------------------------------------------------

  function Join(lines: seq<string>): string {
    if lines == [] then ""
    else if |lines| == 1 then lines[0]
    else lines[0] + "\n" + Join(lines[1..])
  }

  lemma {:induction false} CleanLine(l: string, rest: string, inside: bool)
    requires '\n' !in l
    ensures Clean(l + "\n" + rest, inside)
         == Cleaned(Clean(l, inside).text + "\n" + Clean(rest, Clean(l, inside).inside).text,
                    Clean(rest, Clean(l, inside).inside).inside)
    decreases |l|
  {
    var s := l + "\n" + rest;
    if l == "" {
      assert s == "\n" + rest && s[1..] == rest;
    } else {
      assert s[1..] == l[1..] + "\n" + rest;
      assert s[0] == l[0] && s[1] == if |l| == 1 then '\n' else l[1];
      assert forall a, b | b != '\n' :: PairAt(s, a, b, 0) == PairAt(l, a, b, 0);
      CleanLine(l[1..], rest, inside);
      if 2 <= |l| {
        assert s[2..] == l[2..] + "\n" + rest;
        CleanLine(l[2..], rest, !inside);
      }
    }
  }

  /** The machine on joined lines, line by line. */
  ghost predicate LinesClean(lines: seq<string>, inside: bool) {
    lines == [] ||
    (!HasPair(Clean(lines[0], inside).text, '/', '*')
     && LinesClean(lines[1..], Clean(lines[0], inside).inside))
  }

  lemma PairAcrossNewline(a: string, b: string)
    ensures HasPair(a + "\n" + b, '/', '*') <==> HasPair(a, '/', '*') || HasPair(b, '/', '*')
  {
    var s := a + "\n" + b;
    forall i: nat | PairAt(a, '/', '*', i)
      ensures PairAt(s, '/', '*', i)
    {
    }
    forall i: nat | PairAt(b, '/', '*', i)
      ensures PairAt(s, '/', '*', |a| + 1 + i)
    {
    }
    forall i: nat | PairAt(s, '/', '*', i)
      ensures PairAt(a, '/', '*', i) || (|a| < i && PairAt(b, '/', '*', i - |a| - 1))
    {
      assert s[|a|] == '\n';
    }
  }

  lemma {:induction false} JoinedClean(lines: seq<string>, inside: bool)
    requires forall l :: l in lines ==> '\n' !in l
    ensures !HasPair(Clean(Join(lines), inside).text, '/', '*') <==> LinesClean(lines, inside)
  {
    if |lines| == 1 {
      assert LinesClean(lines[1..], Clean(lines[0], inside).inside);
    } else if lines != [] {
      assert lines[0] in lines;
      CleanLine(lines[0], Join(lines[1..]), inside);
      JoinedClean(lines[1..], Clean(lines[0], inside).inside);
      PairAcrossNewline(Clean(lines[0], inside).text, Clean(Join(lines[1..]), Clean(lines[0], inside).inside).text);
    }
  }

  datatype Stripped = Stripped(texts: seq<string>, inside: bool)
  {
    function Whole(): Cleaned { Cleaned(Join(texts), inside) }
  }

  /** The remover run over a file from a given mode: what each line still shows (nothing,
      when it is skipped) and the final mode. */
  function StripLines(lines: seq<string>, inside: bool): Stripped {
    if lines == [] then Stripped([], inside)
    else
      var first := StripLine(lines[0], inside);
      var rest := StripLines(lines[1..], first.inside);
      Stripped([first.text] + rest.texts, rest.inside)
  }

  lemma {:induction false} StripLinesNoOpener(lines: seq<string>, inside: bool)
    ensures |StripLines(lines, inside).texts| == |lines|
    ensures !HasPair(Join(StripLines(lines, inside).texts), '/', '*')
  {
    if lines != [] {
      var first := StripLine(lines[0], inside);
      StripLinesNoOpener(lines[1..], first.inside);
      JoinFirst(first.text, StripLines(lines[1..], first.inside).texts);
      PairAcrossNewline(first.text, Join(StripLines(lines[1..], first.inside).texts));
    }
  }

  lemma JoinFirst(l: string, lines: seq<string>)
    ensures Join([l] + lines) == if lines == [] then l else l + "\n" + Join(lines)
  {
    assert ([l] + lines)[1..] == lines;
  }

  lemma {:induction false} StripLinesAgree(lines: seq<string>, inside: bool)
    requires forall l :: l in lines ==> '\n' !in l
    requires LinesClean(lines, inside)
    ensures StripLines(lines, inside).Whole() == Clean(Join(lines), inside)
  {
    if lines != [] {
      assert lines[0] in lines;
      StripLineAgreesIff(lines[0], inside);
      var first := StripLine(lines[0], inside);
      StripLinesNoOpener(lines[1..], first.inside);
      JoinFirst(first.text, StripLines(lines[1..], first.inside).texts);
      if 1 < |lines| {
        CleanLine(lines[0], Join(lines[1..]), inside);
        StripLinesAgree(lines[1..], first.inside);
      }
    }
  }

  /** Whole files: the remover's text is the machine's exactly when the machine leaves no
      opener behind, and then the final mode is the machine's too. */
  lemma StripLinesAgreeIff(lines: seq<string>, inside: bool)
    requires forall l :: l in lines ==> '\n' !in l
    ensures Join(StripLines(lines, inside).texts) == Clean(Join(lines), inside).text
        <==> !HasPair(Clean(Join(lines), inside).text, '/', '*')
    ensures !HasPair(Clean(Join(lines), inside).text, '/', '*') ==>
              StripLines(lines, inside).Whole() == Clean(Join(lines), inside)
  {
    StripLinesNoOpener(lines, inside);
    JoinedClean(lines, inside);
    if LinesClean(lines, inside) {
      StripLinesAgree(lines, inside);
    }
  }

  /** So a file without two slashes before a star is cleaned as one text. */
  lemma StripLinesCleanText(lines: seq<string>)
    requires forall l :: l in lines ==> '\n' !in l
    requires forall i: nat :: !TripleAt(Join(lines), i)
    ensures StripLines(lines, false).Whole() == Clean(Join(lines), false)
  {
    NoTripleNoOpener(Join(lines), false);
    StripLinesAgreeIff(lines, false);
  }
}
