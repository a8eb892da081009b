/** Printing and parsing a changelog entry undo each other, exactly on normal entries. */
module ChangelogRoundTrip {
  import opened Text
  import opened Changelog

  predicate ItemText(item: string) {
    && item != "" && !RustSpace(item[|item| - 1])
    && '\n' !in item && !Marked(item)
  }

  predicate BreakingText(item: string) {
    Trimmed(RustSpace, item) && '\n' !in item
  }

  /** What a caller can check before printing. */
  predicate Normal<V, D>(e: Entry<V, D>) {
    && (forall s, item :: item in e.Items(s) ==> ItemText(item))
    && (forall item :: item in e.breaking ==> BreakingText(item))
  }

  // ---- the parser's loop, run over printed lines --------------------------

  lemma {:induction false} ReadAppend<V, D>(c: Cursor<V, D>, a: seq<string>, b: seq<string>)
    ensures ReadLines(c, a + b) == ReadLines(ReadLines(c, a), b)
    decreases |b|
  {
    if b == [] {
      assert a + b == a;
    } else {
      assert (a + b)[..|a + b| - 1] == a + b[..|b| - 1];
      ReadAppend(c, a, b[..|b| - 1]);
    }
  }

  lemma BulletTrimmed(item: string)
    requires item != "" && !RustSpace(item[|item| - 1])
    ensures Trim(RustSpace, BULLET + item) == BULLET + item
  {
    TrimFixed(RustSpace, BULLET + item);
  }

  lemma ReadItem<V, D>(c: Cursor<V, D>, s: Section, item: string)
    requires c.section == Some(Title(s)) && ItemText(item)
    ensures ReadLine(c, BULLET + item) == c.(entry := c.entry.Append(s, [item]))
  {
    var line := BULLET + item;
    BulletTrimmed(item);
    TitlesAreExact(Title(s), s);
    assert line[0] == '-' && "### "[0] == '#';
    assert line[2..] == item;
  }

  /** The marker the printer writes is stripped once, whatever the item starts with. */
  lemma UnmarkPrinted(item: string)
    requires BreakingText(item)
    ensures Unmark(MARKER + " " + item) == item
    ensures Unmark(MARKER) == ""
  {
    var full := MARKER + " " + item;
    assert full[|MARKER|..] == " " + item && MARKER[|MARKER|..] == "";
    var rest := " " + item;
    assert rest[0] == ' ' && MARKER[0] == '*' && MARKER_ALT[0] == '*';
    assert StripAll(MARKER, full) == rest;
    assert StripAll(MARKER_ALT, rest) == rest;
    TrimPadding(RustSpace, item, ' ');
    TrimFixed(RustSpace, item);
  }

  /** The text of a printed breaking item, as the parser sees it after trimming. */
  function BreakingBulletText(item: string): string {
    if item == "" then MARKER else MARKER + " " + item
  }

  lemma BreakingBulletTrimmed(item: string)
    requires BreakingText(item)
    ensures Trim(RustSpace, BREAKING_BULLET + item) == BULLET + BreakingBulletText(item)
  {
    BulletTrimmed(BreakingBulletText(item));
    if item == "" {
      assert BREAKING_BULLET + item == (BULLET + MARKER) + [' '];
      TrimPadding(RustSpace, BULLET + MARKER, ' ');
    } else {
      assert BREAKING_BULLET + item == BULLET + BreakingBulletText(item);
    }
  }

  lemma ReadBreaking<V, D>(c: Cursor<V, D>, item: string)
    requires c.section.Some? && BreakingText(item)
    ensures ReadLine(c, BREAKING_BULLET + item) == c.(entry := c.entry.AppendBreaking([item]))
  {
    BreakingBulletTrimmed(item);
    var t := BULLET + BreakingBulletText(item);
    assert t[0] == '-' && "### "[0] == '#';
    assert t[2..] == BreakingBulletText(item);
    assert Marked(BreakingBulletText(item));
    UnmarkPrinted(item);
  }

  /** The other way to mark a breaking item, colon inside the stars, is read all the same. */
  lemma AlternateMarkerRead<V, D>(c: Cursor<V, D>, item: string)
    requires c.section.Some? && item != "" && Trimmed(RustSpace, item)
    ensures ReadLine(c, "- **BREAKING:** " + item)
         == c.(entry := c.entry.(breaking := c.entry.breaking + [item]))
  {
    var line, text := "- **BREAKING:** " + item, "**BREAKING:** " + item;
    assert line == "- " + text && line[2..] == text && line[0] == '-' && line[|line| - 1] == item[|item| - 1];
    TrimFixed(RustSpace, line);
    AlternateUnmarked(item);
    assert "### "[0] == '#';
  }

  lemma AlternateUnmarked(item: string)
    requires Trimmed(RustSpace, item)
    ensures Marked("**BREAKING:** " + item) && Unmark("**BREAKING:** " + item) == item
  {
    var text := "**BREAKING:** " + item;
    assert text[10] == ':' && MARKER[10] == '*';
    assert StripAll(MARKER, text) == text;
    assert text == MARKER_ALT + (" " + item);
    StripOne(MARKER_ALT, " " + item);
    assert (" " + item)[0] == ' ' && MARKER_ALT[0] == '*';
    TrimPadding(RustSpace, item, ' ');
    TrimFixed(RustSpace, item);
  }

  lemma {:induction false} ReadItems<V, D>(c: Cursor<V, D>, s: Section, items: seq<string>)
    requires c.section == Some(Title(s))
    requires forall item :: item in items ==> ItemText(item)
    ensures ReadLines(c, Bullets(BULLET, items)) == c.(entry := c.entry.Append(s, items))
  {
    if items != [] {
      var front, last := items[..|items| - 1], items[|items| - 1];
      ReadItems(c, s, front);
      assert Bullets(BULLET, items)[..|items| - 1] == Bullets(BULLET, front);
      ReadItem(ReadLines(c, Bullets(BULLET, front)), s, last);
      AppendAppend(c.entry, s, front, [last]);
      assert front + [last] == items;
    } else {
      AppendNothing(c.entry, s);
    }
  }

  lemma AppendAppend<V, D>(e: Entry<V, D>, s: Section, a: seq<string>, b: seq<string>)
    ensures e.Append(s, a).Append(s, b) == e.Append(s, a + b)
  {
    assert e.Items(s) + a + b == e.Items(s) + (a + b);
  }

  lemma AppendNothing<V, D>(e: Entry<V, D>, s: Section)
    ensures e.Append(s, []) == e
  {
    assert e.Items(s) + [] == e.Items(s);
  }

  lemma BreakingAppend<V, D>(e: Entry<V, D>, a: seq<string>, b: seq<string>)
    ensures e.AppendBreaking(a).AppendBreaking(b) == e.AppendBreaking(a + b)
    ensures e.AppendBreaking([]) == e
  {
    assert e.breaking + a + b == e.breaking + (a + b) && e.breaking + [] == e.breaking;
  }

  lemma {:induction false} ReadBreakingItems<V, D>(c: Cursor<V, D>, items: seq<string>)
    requires c.section.Some?
    requires forall item :: item in items ==> BreakingText(item)
    ensures ReadLines(c, Bullets(BREAKING_BULLET, items)) == c.(entry := c.entry.AppendBreaking(items))
  {
    BreakingAppend(c.entry, [], []);
    if items != [] {
      var front, last := items[..|items| - 1], items[|items| - 1];
      ReadBreakingItems(c, front);
      assert Bullets(BREAKING_BULLET, items) == Bullets(BREAKING_BULLET, front) + [BREAKING_BULLET + last];
      ReadAppend(c, Bullets(BREAKING_BULLET, front), [BREAKING_BULLET + last]);
      ReadSingle(c.(entry := c.entry.AppendBreaking(front)), BREAKING_BULLET + last);
      ReadBreaking(c.(entry := c.entry.AppendBreaking(front)), last);
      BreakingAppend(c.entry, front, [last]);
      assert front + [last] == items;
    }
  }

  lemma ReadSingle<V, D>(c: Cursor<V, D>, line: string)
    ensures ReadLines(c, [line]) == ReadLine(c, line)
  {
    assert [line][..0] == [];
  }

  lemma TitleTrimmed(s: Section)
    ensures Title(s) != "" && Trimmed(RustSpace, Title(s)) && '\n' !in Title(s)
  {
  }

  lemma ReadHeadingLine<V, D>(c: Cursor<V, D>, s: Section)
    ensures ReadLine(c, "### " + Title(s)) == c.(section := Some(Title(s)))
  {
    var line := "### " + Title(s);
    TitleTrimmed(s);
    assert line[0] == '#' && line[|line| - 1] == Title(s)[|Title(s)| - 1];
    TrimFixed(RustSpace, line);
    assert line[4..] == Title(s);
    TrimFixed(RustSpace, Title(s));
  }

  lemma ReadHeading<V, D>(c: Cursor<V, D>, s: Section)
    ensures ReadLines(c, Heading(s)) == c.(section := Some(Title(s)))
  {
    var h := Heading(s);
    ReadHeadingLine(c, s);
    assert h[..2] == ["", "### " + Title(s)] && h[..2][..1] == [""] && h[..2][..1][..0] == [];
    assert ReadLine(c, "") == c;
    assert ReadLines(c, [""]) == c;
    assert ReadLines(c, h[..2]) == ReadLine(c, "### " + Title(s));
  }

  /** Reading back one printed section moves its items, and nothing else. */
  lemma ReadSection<V, D>(c: Cursor<V, D>, e: Entry<V, D>, s: Section)
    requires Normal(e)
    ensures ReadLines(c, SectionLines(e, s)).entry
         == (if s == Changed then c.entry.AppendBreaking(e.breaking) else c.entry).Append(s, e.Items(s))
  {
    var breaking := if s == Changed then e.breaking else [];
    if breaking == [] && e.Items(s) == [] {
      AppendNothing(c.entry, s);
      assert c.entry.breaking + [] == c.entry.breaking;
    } else {
      var top, mid, low := Heading(s), Bullets(BREAKING_BULLET, breaking), Bullets(BULLET, e.Items(s));
      ReadAppend(c, top + mid, low);
      ReadAppend(c, top, mid);
      ReadHeading(c, s);
      var c1 := ReadLines(c, top);
      ReadBreakingItems(c1, breaking);
      ReadItems(ReadLines(c1, mid), s, e.Items(s));
      assert c.entry.breaking + [] == c.entry.breaking;
    }
  }

  /** Reading one more section after what has been read. */
  lemma ReadNext<V, D>(c: Cursor<V, D>, before: seq<string>, e: Entry<V, D>, s: Section)
    requires Normal(e)
    ensures var so := ReadLines(c, before).entry;
      ReadLines(c, before + SectionLines(e, s)).entry
        == (if s == Changed then so.AppendBreaking(e.breaking) else so).Append(s, e.Items(s))
  {
    ReadAppend(c, before, SectionLines(e, s));
    ReadSection(ReadLines(c, before), e, s);
  }

  lemma ReadBody<V, D>(c: Cursor<V, D>, e: Entry<V, D>)
    requires Normal(e) && c.entry == NewEntry(e.version, e.date)
    ensures ReadLines(c, BodyLines(e)).entry == e
  {
    var l1 := SectionLines(e, Added);
    var l2 := l1 + SectionLines(e, Changed);
    var l3 := l2 + SectionLines(e, Deprecated);
    var l4 := l3 + SectionLines(e, Removed);
    var l5 := l4 + SectionLines(e, Fixed);
    ReadSection(c, e, Added);
    ReadNext(c, l1, e, Changed);
    ReadNext(c, l2, e, Deprecated);
    ReadNext(c, l3, e, Removed);
    ReadNext(c, l4, e, Fixed);
    ReadNext(c, l5, e, Security);
    AllAppended(e);
  }

  /** The six sections, appended in printing order to an empty entry, give the entry. */
  lemma AllAppended<V, D>(e: Entry<V, D>)
    ensures NewEntry(e.version, e.date)
      .Append(Added, e.added).AppendBreaking(e.breaking).Append(Changed, e.changed)
      .Append(Deprecated, e.deprecated).Append(Removed, e.removed).Append(Fixed, e.fixed)
      .Append(Security, e.security) == e
  {
    assert forall s: seq<string> :: [] + s == s;
  }

  // ---- the version header -------------------------------------------------

  /** Leading hashes and the blank after them go; the rest of a trimmed header stays. */
  lemma HashesStripped(core: string)
    requires core != "" && core[0] == '[' && !RustSpace(core[|core| - 1])
    ensures Trim(RustSpace, StripAll("#", Trim(RustSpace, "## " + core))) == core
  {
    var line := "## " + core;
    TrimFixed(RustSpace, line);
    assert line == "#" + ("#" + (" " + core));
    StripOne("#", "#" + (" " + core));
    StripOne("#", " " + core);
    assert "#"[0] == '#' && (" " + core)[0] == ' ';
    TrimPadding(RustSpace, core, ' ');
    TrimFixed(RustSpace, core);
  }

  /** One dash goes, so a date whose text starts with a minus sign survives. */
  lemma DashStripped(d: string)
    requires DateText(d)
    ensures DateOf(" - " + d) == d
  {
    assert " - " + d == [' '] + ("- " + d);
    TrimPadding(RustSpace, "- " + d, ' ');
    TrimFixed(RustSpace, "- " + d);
    assert "- " + d == "-" + (" " + d);
    StripOne("-", " " + d);
    assert "-"[0] == '-' && (" " + d)[0] == ' ';
    TrimPadding(RustSpace, d, ' ');
    TrimFixed(RustSpace, d);
  }

  function Core(v: string, d: string): string { "[" + v + "] - " + d }

  lemma CoreShape(v: string, d: string)
    requires VersionText(v) && DateText(d)
    ensures var core := Core(v, d);
      && core != "" && core[0] == '[' && core[|core| - 1] == d[|d| - 1]
      && FindChar(core, '[') == Some(0)
      && FindChar(core, ']') == Some(|v| + 1)
      && core[1..|v| + 1] == v && core[|v| + 2..] == " - " + d
  {
    assert Core(v, d) == ("[" + v) + [']'] + (" - " + d);
    FindCharAt("[" + v, ']', " - " + d);
  }

  lemma CoreParses<V, D>(f: Formats<V, D>, header: string, v: string, d: string, version: V, date: D)
    requires VersionText(v) && DateText(d)
    requires f.parseVersion(v) == Some(version) && f.parseDate(d) == Some(date)
    requires Trim(RustSpace, StripAll("#", header)) == Core(v, d)
    ensures ParseHeader(f, header) == Ok((version, date))
  {
    CoreShape(v, d);
    DashStripped(d);
  }

  lemma HeaderParses<V(!new), D(!new)>(f: Formats<V, D>, e: Entry<V, D>)
    requires Lawful(f)
    ensures ParseHeader(f, Trim(RustSpace, HeaderLine(f, e))) == Ok((e.version, e.date))
  {
    var v, d := f.showVersion(e.version), f.showDate(e.date);
    assert VersionText(v) && DateText(d);
    CoreShape(v, d);
    assert HeaderLine(f, e) == "## " + Core(v, d);
    HashesStripped(Core(v, d));
    CoreParses(f, Trim(RustSpace, HeaderLine(f, e)), v, d, e.version, e.date);
  }

  lemma HeaderIsSingle<V(!new), D(!new)>(f: Formats<V, D>, e: Entry<V, D>)
    requires Lawful(f)
    ensures SingleLine(HeaderLine(f, e))
  {
    var v, d := f.showVersion(e.version), f.showDate(e.date);
    assert VersionText(v) && DateText(d);
    var line := HeaderLine(f, e);
    assert line[|line| - 1] == d[|d| - 1];
  }

  /** A header core cut at its first '[' and first ']'. */
  ghost predicate HeaderParts(h: string, a: string, v: string, rest: string) {
    h == a + "[" + v + "]" + rest && '[' !in a && ']' !in a && ']' !in v
  }

  lemma PartsFound(h: string, a: string, v: string, rest: string)
    requires HeaderParts(h, a, v, rest)
    ensures FindChar(h, '[') == Some(|a|) && FindChar(h, ']') == Some(|a| + 1 + |v|)
  {
    assert h == a + ['['] + (v + "]" + rest);
    FindCharAt(a, '[', v + "]" + rest);
    var before := a + "[" + v;
    assert h == before + [']'] + rest && |before| == |a| + 1 + |v|;
    FindCharAt(before, ']', rest);
  }

  lemma PartsSliced(h: string, a: string, v: string, rest: string)
    requires HeaderParts(h, a, v, rest)
    ensures h[|a| + 1..|a| + 1 + |v|] == v && h[|a| + 1 + |v| + 1..] == rest
  {
  }

  lemma FoundParts(h: string)
    requires FindChar(h, '[').Some? && FindChar(h, ']').Some?
    requires FindChar(h, '[').value < FindChar(h, ']').value
    ensures var i, j := FindChar(h, '[').value, FindChar(h, ']').value;
      HeaderParts(h, h[..i], h[i + 1..j], h[j + 1..])
  {
    var i, j := FindChar(h, '[').value, FindChar(h, ']').value;
    assert h[..i] == h[..j][..i] && h[i + 1..j] == h[..j][i + 1..];
    CutTwice(h, i, j);
  }

  lemma CutTwice(h: string, i: nat, j: nat)
    requires i < j < |h|
    ensures h == h[..i] + [h[i]] + h[i + 1..j] + [h[j]] + h[j + 1..]
  {
  }

  /** A header cut at its first '[' and first ']', in that order, is read from the text between
      them, a version, and the text after them, a date less margins and dashes. */
  lemma PartsParse<V, D>(f: Formats<V, D>, h: string, a: string, v: string, rest: string)
    requires HeaderParts(h, a, v, rest)
    ensures ParseBrackets(f, h) == ParseParts(f, v, rest)
  {
    PartsFound(h, a, v, rest);
    PartsSliced(h, a, v, rest);
    BracketsParse(f, h, |a|, |a| + 1 + |v|, v, rest);
  }

  lemma BracketsParse<V, D>(f: Formats<V, D>, h: string, i: nat, j: nat, v: string, rest: string)
    requires FindChar(h, '[') == Some(i) && FindChar(h, ']') == Some(j) && i < j
    requires h[i + 1..j] == v && h[j + 1..] == rest
    ensures ParseBrackets(f, h) == ParseParts(f, v, rest)
  {
  }

  /** The converse: a header rejected for its brackets cannot be cut so, any other can. */
  lemma CutExists<V, D>(f: Formats<V, D>, h: string) returns (a: string, v: string, rest: string)
    requires ParseBrackets(f, h).Ok? || !ParseBrackets(f, h).error.InvalidFormat?
    ensures HeaderParts(h, a, v, rest)
  {
    FoundParts(h);
    var i, j := FindChar(h, '[').value, FindChar(h, ']').value;
    a, v, rest := h[..i], h[i + 1..j], h[j + 1..];
  }

  lemma BracketsCrossed(h: string, a: string, rest: string)
    requires h == a + [']'] + rest && '[' !in a && ']' !in a && '[' in rest
    ensures FindChar(h, ']') == Some(|a|) && FindChar(h, '[').Some? && |a| < FindChar(h, '[').value
  {
    FindCharAt(a, ']', rest);
    assert forall k :: 0 <= k < |a| ==> h[k] == a[k] && a[k] in a;
  }

  /** The first bracket is a closing one, at `i`, and an opening one follows. */
  predicate ClosesFirst(h: string, i: nat) {
    i < |h| && h[i] == ']' && '[' !in h[..i] && ']' !in h[..i] && '[' in h[i + 1..]
  }

  lemma ClosesFirstFound(h: string, i: nat)
    requires ClosesFirst(h, i)
    ensures FindChar(h, ']') == Some(i) && FindChar(h, '[').Some? && i < FindChar(h, '[').value
  {
    assert h == h[..i] + [']'] + h[i + 1..];
    BracketsCrossed(h, h[..i], h[i + 1..]);
  }

  lemma FoundClosesFirst(h: string, start: nat, end: nat)
    requires FindChar(h, '[') == Some(start) && FindChar(h, ']') == Some(end) && end < start
    ensures ClosesFirst(h, end)
  {
    assert h[..end] == h[..start][..end];
    assert h[end + 1..][start - end - 1] == '[';
  }

  /** Which bracket error: one of the two is missing, or a closing one comes before both. */
  lemma BracketErrors<V, D>(f: Formats<V, D>, h: string)
    ensures ParseBrackets(f, h) == Err(InvalidFormat("Missing version brackets")) <==> '[' !in h || ']' !in h
    ensures ParseBrackets(f, h) == Err(InvalidFormat("Invalid version brackets")) <==>
      exists i: nat :: ClosesFirst(h, i)
  {
    if i: nat :| ClosesFirst(h, i) { ClosesFirstFound(h, i); }
    if '[' in h && ']' in h && FindChar(h, ']').value < FindChar(h, '[').value {
      FoundClosesFirst(h, FindChar(h, '[').value, FindChar(h, ']').value);
    }
    assert "Missing version brackets"[0] == 'M' && "Invalid version brackets"[0] == 'I';
  }

  // ---- printing then parsing ----------------------------------------------

  lemma BulletsAreSingle(lead: string, items: seq<string>)
    requires lead != "" && SingleLine(lead)
    requires forall item :: item in items ==> SingleLine(item)
    ensures forall l :: l in Bullets(lead, items) ==> SingleLine(l)
  {
    forall l | l in Bullets(lead, items)
      ensures SingleLine(l)
    {
      var i :| 0 <= i < |items| && l == lead + items[i];
      assert items[i] in items;
      assert l[|l| - 1] == if items[i] == "" then lead[|lead| - 1] else items[i][|items[i]| - 1];
    }
  }

  lemma NormalItemsSingle<V, D>(e: Entry<V, D>, s: Section)
    requires Normal(e)
    ensures forall item :: item in e.Items(s) ==> SingleLine(item)
    ensures forall item :: item in e.breaking ==> SingleLine(item)
  {
    forall item | item in e.Items(s)
      ensures SingleLine(item)
    {
      assert ItemText(item);
    }
    forall item | item in e.breaking
      ensures SingleLine(item)
    {
      assert BreakingText(item);
    }
  }

  lemma HeadingIsSingle(s: Section)
    ensures forall l :: l in Heading(s) ==> SingleLine(l)
  {
    TitleTrimmed(s);
  }

  lemma PrintedLinesAreSingle<V, D>(e: Entry<V, D>, s: Section)
    requires Normal(e)
    ensures forall l :: l in SectionLines(e, s) ==> SingleLine(l)
  {
    NormalItemsSingle(e, s);
    HeadingIsSingle(s);
    BulletsAreSingle(BULLET, e.Items(s));
    BulletsAreSingle(BREAKING_BULLET, if s == Changed then e.breaking else []);
  }

  /** A normal entry parses back to itself. */
  lemma NormalRoundTrips<V(!new), D(!new)>(f: Formats<V, D>, e: Entry<V, D>)
    requires Lawful(f) && Normal(e)
    ensures Parse(f, Markdown(f, e)) == Ok(e)
  {
    var lines := [HeaderLine(f, e)] + BodyLines(e);
    HeaderParses(f, e);
    HeaderIsSingle(f, e);
    forall s { PrintedLinesAreSingle(e, s); }
    LinesUnlines(lines);
    assert lines[1..] == BodyLines(e);
    ReadBody(Cursor(None, NewEntry(e.version, e.date)), e);
  }

  // ---- what parsing can produce -------------------------------------------

  lemma {:induction false} StripAllCut(pattern: string, s: string) returns (i: nat)
    requires pattern != ""
    ensures i <= |s| && StripAll(pattern, s) == s[i..]
    decreases |s|
  {
    i := 0;
    if pattern <= s {
      var j := StripAllCut(pattern, s[|pattern|..]);
      i := |pattern| + j;
    }
  }

  lemma UnmarkIsBreakingText(item: string)
    requires '\n' !in item
    ensures BreakingText(Unmark(item))
  {
    var i := StripAllCut(MARKER, item);
    var a := item[i..];
    var j := StripAllCut(MARKER_ALT, a);
    var b := a[j..];
    var m, n := TrimCut(RustSpace, b);
  }

  /** What one bullet adds to an entry. */
  lemma AddItemMeaning<V, D>(e: Entry<V, D>, title: string, item: string, s: Section)
    ensures var r := AddItem(e, title, item);
      && r.version == e.version && r.date == e.date
      && r.Items(s) == e.Items(s) + (if title == Title(s) && !Marked(item) then [item] else [])
      && r.breaking == e.breaking + (if Marked(item) then [Unmark(item)] else [])
  {
    TitlesAreExact(title, s);
    assert e.Items(s) + [] == e.Items(s) && e.breaking + [] == e.breaking;
  }

  lemma AddItemNormal<V, D>(e: Entry<V, D>, title: string, item: string)
    requires Normal(e) && item != "" && !RustSpace(item[|item| - 1]) && '\n' !in item
    ensures Normal(AddItem(e, title, item))
  {
    UnmarkIsBreakingText(item);
    AddItemMeaning(e, title, item, Added);
    forall s { AddItemMeaning(e, title, item, s); }
  }

  /** The text of a bullet line ends where the trimmed line ends. */
  lemma BulletTextShape(line: string)
    requires '\n' !in line && "- " <= Trim(RustSpace, line)
    ensures var item := Trim(RustSpace, line)[2..];
      item != "" && !RustSpace(item[|item| - 1]) && '\n' !in item
  {
    var i, j := TrimCut(RustSpace, line);
    var t := Trim(RustSpace, line);
    assert t[1] == ' ';
    assert t[2..] != "" && t[2..][|t| - 3] == t[|t| - 1];
  }

  lemma ReadLineNormal<V, D>(c: Cursor<V, D>, line: string)
    requires Normal(c.entry) && '\n' !in line
    ensures Normal(ReadLine(c, line).entry)
  {
    var t := Trim(RustSpace, line);
    if "- " <= t && c.section.Some? {
      BulletTextShape(line);
      AddItemNormal(c.entry, c.section.value, t[2..]);
    }
  }

  lemma {:induction false} ReadLinesNormal<V, D>(c: Cursor<V, D>, lines: seq<string>)
    requires Normal(c.entry) && forall l :: l in lines ==> '\n' !in l
    ensures Normal(ReadLines(c, lines).entry)
  {
    if lines != [] {
      ReadLinesNormal(c, lines[..|lines| - 1]);
      ReadLineNormal(ReadLines(c, lines[..|lines| - 1]), lines[|lines| - 1]);
    }
  }

  /** Every entry the parser returns is normal, whatever the text. */
  lemma ParsedIsNormal<V, D>(f: Formats<V, D>, markdown: string)
    ensures Parse(f, markdown).Ok? ==> Normal(Parse(f, markdown).value)
  {
    if Parse(f, markdown).Ok? {
      var body := Lines(markdown)[1..];
      LinesAreNewlineFree(markdown);
      assert forall l :: l in body ==> '\n' !in l;
      var pair := ParseHeader(f, Trim(RustSpace, Lines(markdown)[0])).value;
      NewIsNormal(pair.0, pair.1);
      ReadLinesNormal(Cursor(None, NewEntry(pair.0, pair.1)), body);
    }
  }

  lemma NewIsNormal<V, D>(v: V, d: D)
    ensures Normal(NewEntry(v, d))
  {
  }

  // ---- main results -------------------------------------------------------

  /** An entry survives the round trip exactly when it is normal. */
  lemma RoundTripIffNormal<V(!new), D(!new)>(f: Formats<V, D>, e: Entry<V, D>)
    requires Lawful(f)
    ensures Parse(f, Markdown(f, e)) == Ok(e) <==> Normal(e)
  {
    if Normal(e) {
      NormalRoundTrips(f, e);
    } else if Parse(f, Markdown(f, e)) == Ok(e) {
      ParsedIsNormal(f, Markdown(f, e));
    }
  }

  /** Normal form: whatever text was parsed, its entry is a fixed point of print and parse. */
  lemma NormalForm<V(!new), D(!new)>(f: Formats<V, D>, markdown: string)
    requires Lawful(f)
    ensures Parse(f, markdown).Ok? ==>
      Parse(f, Markdown(f, Parse(f, markdown).value)) == Parse(f, markdown)
  {
    if Parse(f, markdown).Ok? {
      ParsedIsNormal(f, markdown);
      NormalRoundTrips(f, Parse(f, markdown).value);
    }
  }

  lemma PrintInjective<V(!new), D(!new)>(f: Formats<V, D>, a: Entry<V, D>, b: Entry<V, D>)
    requires Lawful(f) && Normal(a) && Normal(b)
    ensures Markdown(f, a) == Markdown(f, b) <==> a == b
  {
    NormalRoundTrips(f, a);
    NormalRoundTrips(f, b);
  }

  lemma SectionLength<V, D>(e: Entry<V, D>, s: Section)
    ensures var n := |e.Items(s)| + (if s == Changed then |e.breaking| else 0);
      |SectionLines(e, s)| == if n == 0 then 0 else 3 + n
  {
  }

  lemma BodyLength<V, D>(e: Entry<V, D>)
    ensures |BodyLines(e)| == |SectionLines(e, Added)| + |SectionLines(e, Changed)|
      + |SectionLines(e, Deprecated)| + |SectionLines(e, Removed)| + |SectionLines(e, Fixed)|
      + |SectionLines(e, Security)|
  {
  }

  /** An entry is empty exactly when it prints as its header alone; every item takes a line of
      its own. */
  lemma EmptyPrintsHeaderOnly<V, D>(e: Entry<V, D>)
    ensures e.IsEmpty() <==> |BodyLines(e)| == 0
    ensures |BodyLines(e)| >= |e.added| + |e.changed| + |e.deprecated| + |e.removed| + |e.fixed|
                            + |e.security| + |e.breaking|
  {
    BodyLength(e);
    SectionLength(e, Added);
    SectionLength(e, Changed);
    SectionLength(e, Deprecated);
    SectionLength(e, Removed);
    SectionLength(e, Fixed);
    SectionLength(e, Security);
  }

  // ---- an independent reading of the sections -----------------------------

  predicate IsHeading(line: string) { "### " <= Trim(RustSpace, line) }

  predicate IsBullet(line: string) { "- " <= Trim(RustSpace, line) }

  function BulletText(line: string): string
    requires IsBullet(line)
  {
    Trim(RustSpace, line)[2..]
  }

  /** The title of the last heading above line `i`, found by searching backwards. */
  function HeadingAbove(lines: seq<string>, i: nat): Option<string>
    requires i <= |lines|
  {
    if i == 0 then None
    else if IsHeading(lines[i - 1]) then Some(Trim(RustSpace, Trim(RustSpace, lines[i - 1])[4..]))
    else HeadingAbove(lines, i - 1)
  }

  /** The ordinary bullets under the headings titled like `s`, in document order. */
  function Under(lines: seq<string>, s: Section, n: nat): seq<string>
    requires n <= |lines|
  {
    if n == 0 then []
    else
      var line := lines[n - 1];
      Under(lines, s, n - 1)
      + (if IsBullet(line) && HeadingAbove(lines, n - 1) == Some(Title(s)) && !Marked(BulletText(line))
         then [BulletText(line)] else [])
  }

  /** The marked bullets below any heading, known or not. */
  function MarkedBullets(lines: seq<string>, n: nat): seq<string>
    requires n <= |lines|
  {
    if n == 0 then []
    else
      var line := lines[n - 1];
      MarkedBullets(lines, n - 1)
      + (if IsBullet(line) && HeadingAbove(lines, n - 1).Some? && Marked(BulletText(line))
         then [Unmark(BulletText(line))] else [])
  }

  lemma ReadLineMeaning<V, D>(c: Cursor<V, D>, line: string, s: Section)
    ensures var r := ReadLine(c, line);
      && r.section == (if IsHeading(line) then Some(Trim(RustSpace, Trim(RustSpace, line)[4..])) else c.section)
      && r.entry.version == c.entry.version && r.entry.date == c.entry.date
      && r.entry.Items(s) == c.entry.Items(s)
         + (if IsBullet(line) && c.section == Some(Title(s)) && !Marked(BulletText(line))
            then [BulletText(line)] else [])
      && r.entry.breaking == c.entry.breaking
         + (if IsBullet(line) && c.section.Some? && Marked(BulletText(line)) then [Unmark(BulletText(line))] else [])
  {
    var t := Trim(RustSpace, line);
    assert "- "[0] == '-' && "### "[0] == '#';
    assert !("- " <= t && "### " <= t);
    if IsBullet(line) && c.section.Some? {
      AddItemMeaning(c.entry, c.section.value, BulletText(line), s);
    } else {
      assert c.entry.Items(s) + [] == c.entry.Items(s) && c.entry.breaking + [] == c.entry.breaking;
    }
  }

  lemma ReadOneMore<V, D>(c: Cursor<V, D>, lines: seq<string>, n: nat)
    requires 0 < n <= |lines|
    ensures ReadLines(c, lines[..n]) == ReadLine(ReadLines(c, lines[..n - 1]), lines[n - 1])
  {
    assert lines[..n][..n - 1] == lines[..n - 1];
  }

  /** A cursor agrees with the first `n` lines, as far as section `s` is concerned. */
  ghost predicate Agrees<V, D>(c: Cursor<V, D>, v: V, d: D, lines: seq<string>, n: nat, s: Section)
    requires n <= |lines|
  {
    && c.section == HeadingAbove(lines, n)
    && c.entry.version == v && c.entry.date == d
    && c.entry.breaking == MarkedBullets(lines, n)
    && c.entry.Items(s) == Under(lines, s, n)
  }

  lemma AgreesNext<V, D>(c: Cursor<V, D>, v: V, d: D, lines: seq<string>, n: nat, s: Section)
    requires 0 < n <= |lines| && Agrees(c, v, d, lines, n - 1, s)
    ensures Agrees(ReadLine(c, lines[n - 1]), v, d, lines, n, s)
  {
    ReadLineMeaning(c, lines[n - 1], s);
  }

  lemma {:induction false} ReadLinesMeaning<V, D>(v: V, d: D, lines: seq<string>, n: nat, s: Section)
    requires n <= |lines|
    ensures Agrees(ReadLines(Cursor(None, NewEntry(v, d)), lines[..n]), v, d, lines, n, s)
  {
    if 0 < n {
      ReadLinesMeaning(v, d, lines, n - 1, s);
      ReadOneMore(Cursor(None, NewEntry(v, d)), lines, n);
      AgreesNext(ReadLines(Cursor(None, NewEntry(v, d)), lines[..n - 1]), v, d, lines, n, s);
    }
  }

  /** For each section the unmarked bullets whose nearest heading above carries its title,
      and as breaking items the marked bullets under any heading. */
  ghost predicate Describes<V, D>(e: Entry<V, D>, body: seq<string>) {
    && e.breaking == MarkedBullets(body, |body|)
    && forall s :: e.Items(s) == Under(body, s, |body|)
  }

  lemma ReadLinesDescribes<V, D>(v: V, d: D, body: seq<string>)
    ensures var e := ReadLines(Cursor(None, NewEntry(v, d)), body).entry;
      e.version == v && e.date == d && Describes(e, body)
  {
    assert body[..|body|] == body;
    ReadLinesMeaning(v, d, body, |body|, Added);
    forall s
      ensures ReadLines(Cursor(None, NewEntry(v, d)), body).entry.Items(s) == Under(body, s, |body|)
    {
      ReadLinesMeaning(v, d, body, |body|, s);
    }
  }

  lemma ParseMeaning<V, D>(f: Formats<V, D>, markdown: string)
    requires Parse(f, markdown).Ok?
    ensures Lines(markdown) != []
    ensures var e := Parse(f, markdown).value;
      && ParseHeader(f, Trim(RustSpace, Lines(markdown)[0])) == Ok((e.version, e.date))
      && Describes(e, Lines(markdown)[1..])
  {
    var lines := Lines(markdown);
    var pair := ParseHeader(f, Trim(RustSpace, lines[0])).value;
    ReadLinesDescribes(pair.0, pair.1, lines[1..]);
  }
}
