/** Where everything stands in a printed entry, counted from its lists alone. */
module ChangelogLayout {
  import opened Text
  import opened Changelog

  /** The lines a section takes: a heading between blank lines, and one for each item. */
  function Height(breaking: seq<string>, items: seq<string>): nat {
    if breaking == [] && items == [] then 0 else 3 + |breaking| + |items|
  }

  /** A section that starts at line `at`, breaking items before the others; nothing if empty. */
  ghost predicate BlockAt(body: seq<string>, at: nat, title: string, breaking: seq<string>, items: seq<string>) {
    Height(breaking, items) > 0 ==>
      && at + Height(breaking, items) <= |body|
      && body[at] == "" && body[at + 1] == "### " + title && body[at + 2] == ""
      && (forall i :: 0 <= i < |breaking| ==> body[at + 3 + i] == "- **BREAKING**: " + breaking[i])
      && (forall j :: 0 <= j < |items| ==> body[at + 3 + |breaking| + j] == "- " + items[j])
  }

  lemma BlockLinesStand(s: Section, breaking: seq<string>, items: seq<string>)
    ensures |BlockLines(s, breaking, items)| == Height(breaking, items)
    ensures BlockAt(BlockLines(s, breaking, items), 0, Title(s), breaking, items)
  {
    if Height(breaking, items) > 0 {
      var block := BlockLines(s, breaking, items);
      assert block[..3] == Heading(s);
      assert block[3..3 + |breaking|] == Bullets(BREAKING_BULLET, breaking);
      assert block[3 + |breaking|..] == Bullets(BULLET, items);
    }
  }

  lemma BlockMoves(
    before: seq<string>, block: seq<string>, after: seq<string>,
    title: string, breaking: seq<string>, items: seq<string>)
    requires BlockAt(block, 0, title, breaking, items)
    ensures BlockAt(before + block + after, |before|, title, breaking, items)
  {
    var body := before + block + after;
    assert forall i :: 0 <= i < |block| ==> body[|before| + i] == block[i];
    forall i | 0 <= i < |breaking|
      ensures Height(breaking, items) > 0 && body[|before| + 3 + i] == "- **BREAKING**: " + breaking[i]
    {
      assert body[|before| + (3 + i)] == block[3 + i];
    }
    forall j | 0 <= j < |items|
      ensures Height(breaking, items) > 0 && body[|before| + 3 + |breaking| + j] == "- " + items[j]
    {
      assert body[|before| + (3 + |breaking| + j)] == block[3 + |breaking| + j];
    }
  }

  /** The lines of the sections printed before this one. */
  function Above<V, D>(e: Entry<V, D>, s: Section): nat {
    var changed := Height([], e.added);
    var deprecated := changed + Height(e.breaking, e.changed);
    var removed := deprecated + Height([], e.deprecated);
    var fixed := removed + Height([], e.removed);
    match s
    case Added => 0
    case Changed => changed
    case Deprecated => deprecated
    case Removed => removed
    case Fixed => fixed
    case Security => fixed + Height([], e.fixed)
  }

  lemma SectionStands<V, D>(e: Entry<V, D>, s: Section, before: seq<string>, after: seq<string>)
    requires BodyLines(e) == before + SectionLines(e, s) + after && |before| == Above(e, s)
    ensures BlockAt(BodyLines(e), Above(e, s), Title(s), if s == Changed then e.breaking else [], e.Items(s))
  {
    var breaking := if s == Changed then e.breaking else [];
    BlockLinesStand(s, breaking, e.Items(s));
    BlockMoves(before, SectionLines(e, s), after, Title(s), breaking, e.Items(s));
  }

  lemma SectionHeights<V, D>(e: Entry<V, D>)
    ensures |SectionLines(e, Added)| == Height([], e.added)
    ensures |SectionLines(e, Changed)| == Height(e.breaking, e.changed)
    ensures |SectionLines(e, Deprecated)| == Height([], e.deprecated)
    ensures |SectionLines(e, Removed)| == Height([], e.removed)
    ensures |SectionLines(e, Fixed)| == Height([], e.fixed)
    ensures |SectionLines(e, Security)| == Height([], e.security)
  {
  }

  /** Each section of a printed entry stands directly after those before it, in the order added,
      changed, deprecated, removed, fixed, security, breaking items first under Changed. */
  lemma Layout<V, D>(e: Entry<V, D>, s: Section)
    ensures BlockAt(BodyLines(e), Above(e, s), Title(s), if s == Changed then e.breaking else [], e.Items(s))
  {
    var a, b, c := SectionLines(e, Added), SectionLines(e, Changed), SectionLines(e, Deprecated);
    var d, f, g := SectionLines(e, Removed), SectionLines(e, Fixed), SectionLines(e, Security);
    Regroup(a, b, c, d, f, g);
    SectionHeights(e);
    match s
    case Added => SectionStands(e, s, [], b + c + d + f + g);
    case Changed => SectionStands(e, s, a, c + d + f + g);
    case Deprecated => SectionStands(e, s, a + b, d + f + g);
    case Removed => SectionStands(e, s, a + b + c, f + g);
    case Fixed => SectionStands(e, s, a + b + c + d, g);
    case Security => SectionStands(e, s, a + b + c + d + f, []);
  }

  /** Nothing else is printed, and each list goes under its own name. */
  lemma LayoutComplete<V, D>(e: Entry<V, D>)
    ensures |BodyLines(e)| == Above(e, Security) + Height([], e.security)
    ensures Title(Added) == "Added" && Title(Changed) == "Changed" && Title(Deprecated) == "Deprecated"
    ensures Title(Removed) == "Removed" && Title(Fixed) == "Fixed" && Title(Security) == "Security"
    ensures e.Items(Added) == e.added && e.Items(Changed) == e.changed && e.Items(Deprecated) == e.deprecated
    ensures e.Items(Removed) == e.removed && e.Items(Fixed) == e.fixed && e.Items(Security) == e.security
  {
    SectionHeights(e);
  }

  lemma Regroup(a: seq<string>, b: seq<string>, c: seq<string>, d: seq<string>, f: seq<string>, g: seq<string>)
    ensures var body := a + b + c + d + f + g;
      && body == [] + a + (b + c + d + f + g) && body == a + b + (c + d + f + g)
      && body == a + b + c + (d + f + g) && body == a + b + c + d + (f + g) && body == a + b + c + d + f + g + []
  {
  }

  /** The text of a printed entry: the version line, then the body, each line ended by a
      newline. */
  lemma PrintedText<V, D>(f: Formats<V, D>, e: Entry<V, D>)
    ensures Markdown(f, e)
         == "## [" + f.showVersion(e.version) + "] - " + f.showDate(e.date) + "\n" + Unlines(BodyLines(e))
    ensures Unlines([]) == "" && forall lines, l :: Unlines(lines + [l]) == Unlines(lines) + l + "\n"
  {
    UnlinesAppend([HeaderLine(f, e)], BodyLines(e));
    assert [HeaderLine(f, e)][1..] == [];
    assert Unlines([HeaderLine(f, e)]) == HeaderLine(f, e) + "\n";
    forall lines, l
      ensures Unlines(lines + [l]) == Unlines(lines) + l + "\n"
    {
      UnlinesAppend(lines, [l]);
      assert [l][1..] == [];
      assert Unlines([l]) == l + "\n";
    }
  }
}
