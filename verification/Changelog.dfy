/** One release of CHANGELOG.md: the Keep a Changelog printer and parser. */
module Changelog {
  import opened Text

  datatype ChangelogError =
    | InvalidFormat(message: string)
    | VersionParse(text: string)
    | DateParse(text: string)

  datatype Result<+T> = Ok(value: T) | Err(error: ChangelogError)

  datatype Section = Added | Changed | Deprecated | Removed | Fixed | Security

  function Title(s: Section): string {
    match s
    case Added => "Added"
    case Changed => "Changed"
    case Deprecated => "Deprecated"
    case Removed => "Removed"
    case Fixed => "Fixed"
    case Security => "Security"
  }

  function SectionOf(title: string): Option<Section> {
    if title == "Added" then Some(Added)
    else if title == "Changed" then Some(Changed)
    else if title == "Deprecated" then Some(Deprecated)
    else if title == "Removed" then Some(Removed)
    else if title == "Fixed" then Some(Fixed)
    else if title == "Security" then Some(Security)
    else None
  }

  /** The six headings are told apart by their titles, and nothing else is a heading. */
  lemma TitlesAreExact(title: string, s: Section)
    ensures SectionOf(title) == Some(s) <==> title == Title(s)
  {
    assert "Added"[0] == 'A' && "Changed"[0] == 'C' && "Deprecated"[0] == 'D';
    assert "Removed"[0] == 'R' && "Fixed"[0] == 'F' && "Security"[0] == 'S';
  }

  /** The version and date libraries, as the functions the crate calls. */
  datatype Formats<!V, !D> = Formats(
    showVersion: V -> string,
    parseVersion: string -> Option<V>,
    showDate: D -> string,
    parseDate: string -> Option<D>)

  /** Parsing undoes printing; a printed version has no brackets (items 9 and 10 of
      Semantic Versioning 2.0.0), a printed date no white margins, neither a newline. */
  ghost predicate Lawful<V(!new), D(!new)>(f: Formats<V, D>) {
    && (forall v :: f.parseVersion(f.showVersion(v)) == Some(v))
    && (forall v :: VersionText(f.showVersion(v)))
    && (forall d :: f.parseDate(f.showDate(d)) == Some(d))
    && (forall d :: DateText(f.showDate(d)))
  }

  predicate VersionText(s: string) {
    '[' !in s && ']' !in s && '\n' !in s
  }

  predicate DateText(s: string) {
    s != "" && Trimmed(RustSpace, s) && '\n' !in s
  }

  datatype Entry<V, D> = Entry(
    version: V,
    date: D,
    added: seq<string>,
    changed: seq<string>,
    deprecated: seq<string>,
    removed: seq<string>,
    fixed: seq<string>,
    security: seq<string>,
    breaking: seq<string>)
  {
    function Items(s: Section): seq<string> {
      match s
      case Added => added
      case Changed => changed
      case Deprecated => deprecated
      case Removed => removed
      case Fixed => fixed
      case Security => security
    }

    function Append(s: Section, items: seq<string>): Entry<V, D> {
      match s
      case Added => this.(added := added + items)
      case Changed => this.(changed := changed + items)
      case Deprecated => this.(deprecated := deprecated + items)
      case Removed => this.(removed := removed + items)
      case Fixed => this.(fixed := fixed + items)
      case Security => this.(security := security + items)
    }

    function AppendBreaking(items: seq<string>): Entry<V, D> {
      this.(breaking := breaking + items)
    }

    predicate IsEmpty() {
      added == [] && changed == [] && deprecated == [] && removed == [] && fixed == []
      && security == [] && breaking == []
    }
  }

  function NewEntry<V, D>(version: V, date: D): Entry<V, D> {
    Entry(version, date, [], [], [], [], [], [], [])
  }

  // ---- printing -----------------------------------------------------------

  function HeaderLine<V, D>(f: Formats<V, D>, e: Entry<V, D>): string {
    "## [" + f.showVersion(e.version) + "] - " + f.showDate(e.date)
  }

  function Bullets(lead: string, items: seq<string>): seq<string> {
    seq(|items|, i requires 0 <= i < |items| => lead + items[i])
  }

  const BULLET := "- "
  const BREAKING_BULLET := "- **BREAKING**: "

  function Heading(s: Section): seq<string> { ["", "### " + Title(s), ""] }

  /** A section with nothing in it is not printed. */
  function BlockLines(s: Section, breaking: seq<string>, items: seq<string>): seq<string> {
    if breaking == [] && items == [] then []
    else Heading(s) + Bullets(BREAKING_BULLET, breaking) + Bullets(BULLET, items)
  }

  /** Breaking items are printed first, under the Changed heading. */
  function SectionLines<V, D>(e: Entry<V, D>, s: Section): seq<string> {
    BlockLines(s, if s == Changed then e.breaking else [], e.Items(s))
  }

  function BodyLines<V, D>(e: Entry<V, D>): seq<string> {
    SectionLines(e, Added) + SectionLines(e, Changed) + SectionLines(e, Deprecated)
    + SectionLines(e, Removed) + SectionLines(e, Fixed) + SectionLines(e, Security)
  }

  /** The document an entry denotes, line by line. */
  function Markdown<V, D>(f: Formats<V, D>, e: Entry<V, D>): string {
    Unlines([HeaderLine(f, e)] + BodyLines(e))
  }

  method WriteBullets(out: string, lead: string, items: seq<string>) returns (output: string)
    ensures output == out + Unlines(Bullets(lead, items))
  {
    output := out;
    for i := 0 to |items|
      invariant output == out + Unlines(Bullets(lead, items)[..i])
    {
      output := output + lead + items[i] + "\n";
      var lines := Bullets(lead, items);
      assert lines[..i + 1] == lines[..i] + [lead + items[i]];
      UnlinesAppend(lines[..i], [lead + items[i]]);
    }
    assert Bullets(lead, items)[..|items|] == Bullets(lead, items);
  }

  method WriteHeading(out: string, s: Section) returns (output: string)
    ensures output == out + Unlines(Heading(s))
  {
    output := out + "\n### " + Title(s) + "\n\n";
    var title := "### " + Title(s);
    assert Heading(s) == [""] + [title] + [""];
    UnlinesAppend([""] + [title], [""]);
    UnlinesAppend([""], [title]);
    assert Unlines(Heading(s)) == "\n" + (title + "\n") + "\n";
  }

  method WriteBlock(out: string, s: Section, breaking: seq<string>, items: seq<string>) returns (output: string)
    ensures output == out + Unlines(BlockLines(s, breaking, items))
  {
    output := out;
    if breaking != [] || items != [] {
      output := WriteHeading(output, s);
      output := WriteBullets(output, BREAKING_BULLET, breaking);
      output := WriteBullets(output, BULLET, items);
      UnlinesThree(out, Heading(s), Bullets(BREAKING_BULLET, breaking), Bullets(BULLET, items));
    }
  }

  lemma UnlinesThree(out: string, a: seq<string>, b: seq<string>, c: seq<string>)
    ensures out + Unlines(a) + Unlines(b) + Unlines(c) == out + Unlines(a + b + c)
  {
    UnlinesNext(out, a + b, c);
    UnlinesNext(out, a, b);
  }

  method ToMarkdown<V, D>(f: Formats<V, D>, e: Entry<V, D>) returns (output: string)
    ensures output == Markdown(f, e)
  {
    output := HeaderLine(f, e) + "\n";
    output := WriteBlock(output, Added, [], e.added);
    output := WriteBlock(output, Changed, e.breaking, e.changed);
    output := WriteBlock(output, Deprecated, [], e.deprecated);
    output := WriteBlock(output, Removed, [], e.removed);
    output := WriteBlock(output, Fixed, [], e.fixed);
    output := WriteBlock(output, Security, [], e.security);
    UnlinesAppend([HeaderLine(f, e)], BodyLines(e));
    UnlinesSections(HeaderLine(f, e) + "\n", SectionLines(e, Added), SectionLines(e, Changed),
                    SectionLines(e, Deprecated), SectionLines(e, Removed), SectionLines(e, Fixed),
                    SectionLines(e, Security));
  }

  lemma UnlinesSections(out: string, a: seq<string>, b: seq<string>, c: seq<string>,
                        d: seq<string>, e: seq<string>, f: seq<string>)
    ensures out + Unlines(a + b + c + d + e + f)
         == out + Unlines(a) + Unlines(b) + Unlines(c) + Unlines(d) + Unlines(e) + Unlines(f)
  {
    UnlinesNext(out, a + b + c + d + e, f);
    UnlinesNext(out, a + b + c + d, e);
    UnlinesNext(out, a + b + c, d);
    UnlinesNext(out, a + b, c);
    UnlinesNext(out, a, b);
  }

  lemma UnlinesNext(out: string, done: seq<string>, next: seq<string>)
    ensures out + Unlines(done + next) == out + Unlines(done) + Unlines(next)
  {
    UnlinesAppend(done, next);
  }

  // ---- parsing ------------------------------------------------------------

  function ParseHeader<V, D>(f: Formats<V, D>, header: string): Result<(V, D)> {
    ParseBrackets(f, Trim(RustSpace, StripAll("#", header)))
  }

  function ParseBrackets<V, D>(f: Formats<V, D>, h: string): Result<(V, D)> {
    var start, end := FindChar(h, '['), FindChar(h, ']');
    if start.None? || end.None? then Err(InvalidFormat("Missing version brackets"))
    else if start.value >= end.value then Err(InvalidFormat("Invalid version brackets"))
    else ParseParts(f, h[start.value + 1..end.value], h[end.value + 1..])
  }

  function ParseParts<V, D>(f: Formats<V, D>, versionText: string, rest: string): Result<(V, D)> {
    match f.parseVersion(versionText)
    case None => Err(VersionParse(versionText))
    case Some(version) =>
      match f.parseDate(DateOf(rest))
      case None => Err(DateParse(DateOf(rest)))
      case Some(date) => Ok((version, date))
  }

  /** What follows the brackets, less margins and leading dashes. */
  function DateOf(rest: string): string {
    Trim(RustSpace, StripAll("-", Trim(RustSpace, rest)))
  }

  const MARKER := "**BREAKING**:"
  const MARKER_ALT := "**BREAKING:**"

  predicate Marked(item: string) { MARKER <= item || MARKER_ALT <= item }

  function Unmark(item: string): string {
    Trim(RustSpace, StripAll(MARKER_ALT, StripAll(MARKER, item)))
  }

  function AddItem<V, D>(e: Entry<V, D>, section: string, item: string): Entry<V, D> {
    if Marked(item) then e.AppendBreaking([Unmark(item)])
    else
      match SectionOf(section)
      case Some(s) => e.Append(s, [item])
      case None => e
  }

  /** The parser's loop state: the open section and the entry so far. */
  datatype Cursor<V, D> = Cursor(section: Option<string>, entry: Entry<V, D>)

  function ReadLine<V, D>(c: Cursor<V, D>, line: string): Cursor<V, D> {
    var t := Trim(RustSpace, line);
    if t == "" then c
    else if "### " <= t then c.(section := Some(Trim(RustSpace, t[4..])))
    else if "- " <= t && c.section.Some? then c.(entry := AddItem(c.entry, c.section.value, t[2..]))
    else c
  }

  function ReadLines<V, D>(c: Cursor<V, D>, lines: seq<string>): Cursor<V, D> {
    if lines == [] then c
    else ReadLine(ReadLines(c, lines[..|lines| - 1]), lines[|lines| - 1])
  }

  function Parse<V, D>(f: Formats<V, D>, markdown: string): Result<Entry<V, D>> {
    var lines := Lines(markdown);
    if lines == [] then Err(InvalidFormat("Empty changelog entry"))
    else
      match ParseHeader(f, Trim(RustSpace, lines[0]))
      case Err(error) => Err(error)
      case Ok(pair) => Ok(ReadLines(Cursor(None, NewEntry(pair.0, pair.1)), lines[1..]).entry)
  }

  method PushItem<V, D>(e: Entry<V, D>, section: string, item: string) returns (entry: Entry<V, D>)
    requires !Marked(item)
    ensures entry == AddItem(e, section, item)
  {
    entry := e;
    match section {
      case "Added" => entry := entry.(added := entry.added + [item]);
      case "Changed" => entry := entry.(changed := entry.changed + [item]);
      case "Deprecated" => entry := entry.(deprecated := entry.deprecated + [item]);
      case "Removed" => entry := entry.(removed := entry.removed + [item]);
      case "Fixed" => entry := entry.(fixed := entry.fixed + [item]);
      case "Security" => entry := entry.(security := entry.security + [item]);
      case _ =>
    }
  }

  method FromMarkdown<V, D>(f: Formats<V, D>, markdown: string) returns (r: Result<Entry<V, D>>)
    ensures r == Parse(f, markdown)
  {
    var lines := Lines(markdown);
    if lines == [] {
      return Err(InvalidFormat("Empty changelog entry"));
    }
    var header := ParseHeader(f, Trim(RustSpace, lines[0]));
    if header.Err? {
      return Err(header.error);
    }
    var entry := NewEntry(header.value.0, header.value.1);
    ghost var start := Cursor(None, entry);
    var currentSection: Option<string> := None;
    var body := lines[1..];
    for i := 0 to |body|
      invariant Cursor(currentSection, entry) == ReadLines(start, body[..i])
    {
      assert body[..i + 1][..i] == body[..i];
      var trimmed := Trim(RustSpace, body[i]);
      if trimmed == "" {
        continue;
      }
      if "### " <= trimmed {
        currentSection := Some(Trim(RustSpace, trimmed[4..]));
        continue;
      }
      if "- " <= trimmed && currentSection.Some? {
        var item := trimmed[2..];
        if MARKER <= item || MARKER_ALT <= item {
          var breakingItem := Trim(RustSpace, StripAll(MARKER_ALT, StripAll(MARKER, item)));
          entry := entry.(breaking := entry.breaking + [breakingItem]);
        } else {
          entry := PushItem(entry, currentSection.value, item);
        }
      }
    }
    assert body[..|body|] == body;
    return Ok(entry);
  }
}
