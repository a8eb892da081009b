/** The two line checks of the changelog validation script, and their agreement with the printer. */
module ChangelogValidator {
  import opened Text
  import opened Changelog

  datatype Finding =
    | UnknownSection(line: nat, name: string)
    | NotAListItem(line: nat)

  function SplitNewline(content: string): seq<string> { SplitOn(content, '\n') }

  predicate IsSectionHeader(line: string) { "### " <= line && 4 < |line| }

  function SectionName(line: string): string
    requires IsSectionHeader(line)
  {
    Trim(PythonSpace, line[4..])
  }

  predicate BadSection(line: string) {
    IsSectionHeader(line) && SectionOf(SectionName(line)).None?
  }

  /** The findings of the first `n` lines, in order. */
  function SectionFindings(lines: seq<string>, n: nat): seq<Finding>
    requires n <= |lines|
  {
    if n == 0 then []
    else
      SectionFindings(lines, n - 1)
      + (if BadSection(lines[n - 1]) then [UnknownSection(n, SectionName(lines[n - 1]))] else [])
  }

  method ValidateSectionFormat(content: string) returns (errors: seq<Finding>)
    ensures errors == SectionFindings(SplitNewline(content), |SplitNewline(content)|)
  {
    errors := [];
    var lines := SplitNewline(content);
    for i := 0 to |lines|
      invariant errors == SectionFindings(lines, i)
    {
      if "### " <= lines[i] && 4 < |lines[i]| {
        var name := Trim(PythonSpace, lines[i][4..]);
        if SectionOf(name).None? {
          errors := errors + [UnknownSection(i + 1, name)];
        }
      }
    }
  }

  /** Whether line `n` is read inside a section: the nearest heading above it is a "### " one. */
  predicate InSection(lines: seq<string>, n: nat)
    requires n <= |lines|
  {
    0 < n && ("### " <= lines[n - 1] || (!("## " <= lines[n - 1]) && InSection(lines, n - 1)))
  }

  /** Lines a section tolerates: headings, blank lines, list items, indented
      continuations and anything that starts with a hash. */
  predicate Tolerated(line: string) {
    var stripped := Trim(PythonSpace, line);
    || "### " <= line || "## " <= line || stripped == ""
    || stripped[0] == '-' || "  " <= line || "\t" <= line || stripped[0] == '#'
  }

  function ItemFindings(lines: seq<string>, n: nat): seq<Finding>
    requires n <= |lines|
  {
    if n == 0 then []
    else
      ItemFindings(lines, n - 1)
      + (if InSection(lines, n - 1) && !Tolerated(lines[n - 1]) then [NotAListItem(n)] else [])
  }

  method ValidateListItems(content: string) returns (errors: seq<Finding>)
    ensures errors == ItemFindings(SplitNewline(content), |SplitNewline(content)|)
  {
    errors := [];
    var lines := SplitNewline(content);
    var inSection := false;
    for i := 0 to |lines|
      invariant inSection == InSection(lines, i)
      invariant errors == ItemFindings(lines, i)
    {
      var line := lines[i];
      if "### " <= line {
        inSection := true;
        continue;
      }
      if "## " <= line {
        inSection := false;
        continue;
      }
      var stripped := Trim(PythonSpace, line);
      if stripped == "" {
        continue;
      }
      if inSection {
        if stripped[0] == '-' {
          continue;
        }
        if "  " <= line || "\t" <= line {
          continue;
        }
        if stripped[0] != '#' {
          errors := errors + [NotAListItem(i + 1)];
        }
      }
    }
  }

  // ---- what is reported ---------------------------------------------------

  predicate KnownName(name: string) {
    name in {"Added", "Changed", "Deprecated", "Removed", "Fixed", "Security"}
  }

  lemma KnownNames(name: string)
    ensures SectionOf(name).Some? <==> KnownName(name)
  {
    forall s { TitlesAreExact(name, s); }
  }

  /** Exactly the lines that start a section of an unknown name are reported, by number and
      name, in order. */
  lemma {:induction false} SectionReports(lines: seq<string>, n: nat, line: nat, name: string)
    requires n <= |lines|
    ensures UnknownSection(line, name) in SectionFindings(lines, n) <==>
      && 1 <= line <= n && "### " <= lines[line - 1] && 4 < |lines[line - 1]|
      && name == Trim(PythonSpace, lines[line - 1][4..]) && !KnownName(name)
  {
    if 0 < n {
      SectionReports(lines, n - 1, line, name);
      if line == n && IsSectionHeader(lines[n - 1]) { KnownNames(SectionName(lines[n - 1])); }
    }
  }

  /** A line is inside a section when some section header above it has no version header below. */
  lemma {:induction false} InSectionMeaning(lines: seq<string>, n: nat)
    requires n <= |lines|
    ensures InSection(lines, n) <==>
      exists j: nat :: j < n && "### " <= lines[j] && forall k: nat :: j < k < n ==> !("## " <= lines[k])
  {
    if 0 < n {
      InSectionMeaning(lines, n - 1);
      assert "### "[2] == '#' && "## "[2] == ' ';
    }
  }

  lemma {:induction false} ItemsReported(lines: seq<string>, n: nat, line: nat)
    requires n <= |lines|
    ensures NotAListItem(line) in ItemFindings(lines, n) <==>
      1 <= line <= n && InSection(lines, line - 1) && !Tolerated(lines[line - 1])
  {
    if 0 < n {
      ItemsReported(lines, n - 1, line);
    }
  }

  /** Exactly the lines inside a section that are neither a header, blank, indented, nor begin
      with a dash or a hash are reported. */
  lemma ItemReports(lines: seq<string>, n: nat, line: nat)
    requires n <= |lines|
    ensures NotAListItem(line) in ItemFindings(lines, n) <==>
      && 1 <= line <= n && InSection(lines, line - 1)
      && var text, stripped := lines[line - 1], Trim(PythonSpace, lines[line - 1]);
         && !("### " <= text) && !("## " <= text) && !("  " <= text) && !("\t" <= text)
         && stripped != "" && stripped[0] != '-' && stripped[0] != '#'
  {
    ItemsReported(lines, n, line);
  }

  function Line(f: Finding): nat { f.line }

  /** One report to a line at most, in the order of the lines, none beyond line `n`. */
  ghost predicate Rising(reports: seq<Finding>, n: nat) {
    && (forall i, j :: 0 <= i < j < |reports| ==> Line(reports[i]) < Line(reports[j]))
    && (forall i :: 0 <= i < |reports| ==> Line(reports[i]) <= n)
  }

  lemma RisingNext(reports: seq<Finding>, more: seq<Finding>, n: nat)
    requires Rising(reports, n)
    requires more == [] || (|more| == 1 && Line(more[0]) == n + 1)
    ensures Rising(reports + more, n + 1)
  {
  }

  lemma {:induction false} ReportsInOrder(lines: seq<string>, n: nat)
    requires n <= |lines|
    ensures Rising(SectionFindings(lines, n), n) && Rising(ItemFindings(lines, n), n)
  {
    if 0 < n {
      ReportsInOrder(lines, n - 1);
      RisingNext(SectionFindings(lines, n - 1),
                 if BadSection(lines[n - 1]) then [UnknownSection(n, SectionName(lines[n - 1]))] else [], n - 1);
      RisingNext(ItemFindings(lines, n - 1),
                 if InSection(lines, n - 1) && !Tolerated(lines[n - 1]) then [NotAListItem(n)] else [], n - 1);
    }
  }

  // ---- every printed changelog is accepted --------------------------------

  ghost predicate NewlineFree<V, D>(e: Entry<V, D>) {
    && (forall s, item :: item in e.Items(s) ==> '\n' !in item)
    && (forall item :: item in e.breaking ==> '\n' !in item)
  }

  /** Any number of entries printed one after another. */
  function Document<V, D>(f: Formats<V, D>, entries: seq<Entry<V, D>>): seq<string> {
    if entries == [] then []
    else [HeaderLine(f, entries[0])] + BodyLines(entries[0]) + Document(f, entries[1..])
  }

  lemma {:induction false} SplitUnlines(lines: seq<string>)
    requires forall l :: l in lines ==> '\n' !in l
    ensures SplitNewline(Unlines(lines)) == lines + [""]
  {
    if lines != [] {
      assert lines[0] in lines;
      SplitFirst(lines[0], '\n', Unlines(lines[1..]));
      SplitUnlines(lines[1..]);
      assert [lines[0]] + (lines[1..] + [""]) == lines + [""];
    }
  }

  predicate Acceptable(line: string) {
    '\n' !in line && Tolerated(line) && !BadSection(line)
  }

  lemma BulletAcceptable(item: string)
    requires '\n' !in item
    ensures Acceptable("- " + item)
  {
    var line := "- " + item;
    assert line[0] == '-' && "### "[0] == '#';
    var i, j := TrimCut(PythonSpace, line);
    assert i == 0;
  }

  lemma TitleIsName(s: Section)
    ensures SectionName("### " + Title(s)) == Title(s) && '\n' !in Title(s)
  {
    var line := "### " + Title(s);
    assert line[4..] == Title(s);
    TitleIsPlain(s);
    TrimFixed(PythonSpace, Title(s));
  }

  lemma TitleIsPlain(s: Section)
    ensures Title(s) != "" && Trimmed(PythonSpace, Title(s)) && '\n' !in Title(s)
  {
  }

  lemma HeadingAcceptable(s: Section)
    ensures Acceptable("### " + Title(s))
  {
    TitleIsName(s);
    TitlesAreExact(Title(s), s);
    assert "### " <= "### " + Title(s);
  }

  lemma BulletsAcceptable(lead: string, tail: string, items: seq<string>)
    requires lead == "- " + tail && '\n' !in tail
    requires forall item :: item in items ==> '\n' !in item
    ensures forall l :: l in Bullets(lead, items) ==> Acceptable(l)
  {
    forall l | l in Bullets(lead, items)
      ensures Acceptable(l)
    {
      var i :| 0 <= i < |items| && l == lead + items[i];
      assert l == "- " + (tail + items[i]);
      BulletAcceptable(tail + items[i]);
    }
  }

  lemma HeadingLinesAcceptable(s: Section)
    ensures forall l :: l in Heading(s) ==> Acceptable(l)
  {
    HeadingAcceptable(s);
    assert Acceptable("");
  }

  lemma SectionAcceptable<V, D>(e: Entry<V, D>, s: Section)
    requires NewlineFree(e)
    ensures forall l :: l in SectionLines(e, s) ==> Acceptable(l)
  {
    HeadingLinesAcceptable(s);
    BulletsAcceptable(BULLET, "", e.Items(s));
    BulletsAcceptable(BREAKING_BULLET, "**BREAKING**: ", if s == Changed then e.breaking else []);
  }

  lemma HeaderAcceptable<V(!new), D(!new)>(f: Formats<V, D>, e: Entry<V, D>)
    requires Lawful(f)
    ensures Acceptable(HeaderLine(f, e))
  {
    assert VersionText(f.showVersion(e.version)) && DateText(f.showDate(e.date));
    var line := HeaderLine(f, e);
    assert line[..3] == "## " && line[3] == '[' && "### "[2] == '#';
  }

  lemma {:induction false} DocumentAcceptable<V(!new), D(!new)>(f: Formats<V, D>, entries: seq<Entry<V, D>>)
    requires Lawful(f) && forall e :: e in entries ==> NewlineFree(e)
    ensures forall l :: l in Document(f, entries) ==> Acceptable(l)
  {
    if entries != [] {
      var e := entries[0];
      HeaderAcceptable(f, e);
      forall s { SectionAcceptable(e, s); }
      DocumentAcceptable(f, entries[1..]);
    }
  }

  lemma {:induction false} AcceptableLinesPass(lines: seq<string>, n: nat)
    requires n <= |lines| && forall l :: l in lines ==> Acceptable(l)
    ensures SectionFindings(lines, n) == [] && ItemFindings(lines, n) == []
  {
    if 0 < n {
      AcceptableLinesPass(lines, n - 1);
      assert lines[n - 1] in lines;
    }
  }

  /** Both checks pass on any run of printed entries, even entries that do not round-trip. */
  lemma PrintedChangelogPasses<V(!new), D(!new)>(f: Formats<V, D>, entries: seq<Entry<V, D>>)
    requires Lawful(f) && forall e :: e in entries ==> NewlineFree(e)
    ensures var lines := SplitNewline(Unlines(Document(f, entries)));
      SectionFindings(lines, |lines|) == [] && ItemFindings(lines, |lines|) == []
  {
    var lines := Document(f, entries) + [""];
    DocumentAcceptable(f, entries);
    SplitUnlines(Document(f, entries));
    AcceptableLinesPass(lines, |lines|);
  }
}
