/** The file policy's selection: every governed file goes to its most specific allowlist entry. */
module FilePolicy {
  import opened Text
  import opened PathGlob

  /** An allowlist entry; a well-formed one has a path or a glob. */
  datatype Entry = Entry(path: Option<string>, glob: Option<string>, retired: bool)
  {
    /** Reading the missing `glob` key of such an entry raises KeyError. */
    predicate Malformed() { !retired && path.None? && glob.None? }
  }

  predicate EndsWith(s: string, suffix: string) {
    |suffix| <= |s| && s[|s| - |suffix|..] == suffix
  }

  function BaseName(path: string): string { LastPart(path, '/') }

  predicate Governed(path: string) {
    !EndsWith(path, ".rs") && BaseName(path) != "Cargo.toml"
  }

  /** Rust files are left out, and any file named Cargo.toml; nothing else is. */
  lemma GovernedMeaning(path: string)
    ensures Governed(path) <==>
      && !(3 <= |path| && path[|path| - 3..] == ".rs")
      && path != "Cargo.toml" && !(exists dir :: path == dir + ['/'] + "Cargo.toml")
  {
    assert EndsWith(path, ".rs") <==> 3 <= |path| && path[|path| - 3..] == ".rs";
    LastPartIff(path, '/', "Cargo.toml");
  }

  predicate Matches(fn: SegmentMatch, e: Entry, path: string)
    requires !e.Malformed()
  {
    if e.retired then false
    else if e.path.Some? then path == e.path.value
    else GlobMatch(fn, e.glob.value, path)
  }

  function Specificity(e: Entry): nat
    requires e.path.Some? || e.glob.Some?
  {
    if e.path.Some? then ExactScore(e.path.value) else Score(SplitOn(e.glob.value, '/'))
  }

  predicate WellFormed(entries: seq<Entry>) {
    forall i :: 0 <= i < |entries| ==> !entries[i].Malformed()
  }

  // ---- choosing an entry --------------------------------------------------

  /** The entry a file goes to: a matching entry that no earlier entry equals and no entry beats. */
  ghost predicate IsBest(fn: SegmentMatch, entries: seq<Entry>, path: string, best: nat)
    requires WellFormed(entries)
  {
    && best < |entries| && Matches(fn, entries[best], path)
    && (forall i :: 0 <= i < |entries| && Matches(fn, entries[i], path) ==>
          Specificity(entries[i]) <= Specificity(entries[best]))
    && (forall i :: 0 <= i < best && Matches(fn, entries[i], path) ==>
          Specificity(entries[i]) < Specificity(entries[best]))
  }

  /** What the selection loop holds after the first `n` entries. */
  function Best(fn: SegmentMatch, entries: seq<Entry>, path: string, n: nat): (r: Option<nat>)
    requires n <= |entries| && WellFormed(entries)
    ensures r.Some? ==> r.value < n && Matches(fn, entries[r.value], path)
  {
    if n == 0 then None
    else
      var before := Best(fn, entries, path, n - 1);
      if Matches(fn, entries[n - 1], path)
         && (before.None? || Specificity(entries[n - 1]) > Specificity(entries[before.value]))
      then Some(n - 1) else before
  }

  function Chosen(fn: SegmentMatch, entries: seq<Entry>, path: string): Option<nat>
    requires WellFormed(entries)
  {
    Best(fn, entries, path, |entries|)
  }

  lemma {:induction false} BestSoFar(fn: SegmentMatch, entries: seq<Entry>, path: string, n: nat, i: nat)
    requires i < n <= |entries| && WellFormed(entries) && Matches(fn, entries[i], path)
    ensures var r := Best(fn, entries, path, n);
      && r.Some? && Specificity(entries[i]) <= Specificity(entries[r.value])
      && (i < r.value ==> Specificity(entries[i]) < Specificity(entries[r.value]))
  {
    if i < n - 1 {
      BestSoFar(fn, entries, path, n - 1, i);
    }
  }

  /** The loop's choice is the earliest entry of maximal specificity, and nothing else is. */
  lemma ChosenIsBest(fn: SegmentMatch, entries: seq<Entry>, path: string, best: nat)
    requires WellFormed(entries)
    ensures Chosen(fn, entries, path) == Some(best) <==> IsBest(fn, entries, path, best)
    ensures Chosen(fn, entries, path).None? <==> forall i :: 0 <= i < |entries| ==> !Matches(fn, entries[i], path)
  {
    var r := Chosen(fn, entries, path);
    forall i | 0 <= i < |entries| && Matches(fn, entries[i], path)
      ensures r.Some? && Specificity(entries[i]) <= Specificity(entries[r.value])
      ensures i < r.value ==> Specificity(entries[i]) < Specificity(entries[r.value])
    {
      BestSoFar(fn, entries, path, |entries|, i);
    }
    if IsBest(fn, entries, path, best) && r.Some? {
      assert Matches(fn, entries[r.value], path) && Matches(fn, entries[best], path);
      assert !(r.value < best) && !(best < r.value);
    }
  }

  /** A file below 999 path segments that has a live exact entry goes to an exact entry. */
  lemma ExactEntryIsChosen(fn: SegmentMatch, entries: seq<Entry>, path: string, exact: nat)
    requires WellFormed(entries) && exact < |entries|
    requires entries[exact].path == Some(path) && !entries[exact].retired
    requires |SplitOn(path, '/')| < 999
    ensures var r := Chosen(fn, entries, path);
      r.Some? && r.value <= exact && entries[r.value].path == Some(path)
  {
    BestSoFar(fn, entries, path, |entries|, exact);
    var r := Chosen(fn, entries, path).value;
    if entries[r].path.None? {
      ExactPathWins(fn, entries[r].glob.value, path);
    }
  }

  predicate ExactAt(entries: seq<Entry>, path: string, exact: nat) {
    exact < |entries| && entries[exact].path == Some(path) && !entries[exact].retired
  }

  predicate ChoosesExact(fn: SegmentMatch, entries: seq<Entry>, path: string)
    requires WellFormed(entries)
  {
    var r := Chosen(fn, entries, path);
    r.Some? && entries[r.value].path == Some(path)
  }

  lemma FirstOfTwo(fn: SegmentMatch, a: Entry, b: Entry, path: string)
    requires !a.Malformed() && !b.Malformed() && Matches(fn, a, path) && Matches(fn, b, path)
    requires Specificity(a) >= Specificity(b)
    ensures WellFormed([a, b]) && Chosen(fn, [a, b], path) == Some(0)
  {
    assert IsBest(fn, [a, b], path, 0);
    ChosenIsBest(fn, [a, b], path, 0);
  }

  lemma SecondOfTwo(fn: SegmentMatch, a: Entry, b: Entry, path: string)
    requires !a.Malformed() && !b.Malformed() && Matches(fn, a, path) && Matches(fn, b, path)
    requires Specificity(a) < Specificity(b)
    ensures WellFormed([a, b]) && Chosen(fn, [a, b], path) == Some(1)
  {
    assert IsBest(fn, [a, b], path, 1);
    ChosenIsBest(fn, [a, b], path, 1);
  }

  /** From 999 segments on a glob listed before the exact entry takes a literal path from it. */
  lemma EarlierGlobTies(fn: SegmentMatch, path: string) returns (entries: seq<Entry>)
    requires Literal(path) && forall s :: Literal(s) ==> fn(s, s)
    requires |SplitOn(path, '/')| >= 999
    ensures WellFormed(entries) && ExactAt(entries, path, 1) && !ChoosesExact(fn, entries, path)
  {
    ExactPathWinsIff(fn, path);
    var glob :| GlobMatch(fn, glob, path) && Score(SplitOn(glob, '/')) >= ExactScore(path);
    var wide, exact := Entry(None, Some(glob), false), Entry(Some(path), None, false);
    entries := [wide, exact];
    FirstOfTwo(fn, wide, exact, path);
  }

  /** A live exact entry wins over whatever else is listed, in any order, for exactly the
      literal paths of fewer than 999 segments. */
  lemma ExactEntryIsChosenIff(fn: SegmentMatch, path: string)
    requires Literal(path) && forall s :: Literal(s) ==> fn(s, s)
    ensures (forall entries, exact :: WellFormed(entries) && ExactAt(entries, path, exact) ==>
               ChoosesExact(fn, entries, path))
        <==> |SplitOn(path, '/')| < 999
  {
    if |SplitOn(path, '/')| < 999 {
      forall entries, exact | WellFormed(entries) && ExactAt(entries, path, exact)
        ensures ChoosesExact(fn, entries, path)
      {
        ExactEntryIsChosen(fn, entries, path, exact);
      }
    } else {
      var entries := EarlierGlobTies(fn, path);
    }
  }

  /** Of two patterns that differ in one segment, spelled out in one and wild in the other, the
      wild one takes no file that both match, wherever the two are listed. */
  lemma LiteralPatternWins(fn: SegmentMatch, entries: seq<Entry>, path: string, exact: nat, wild: nat)
    requires WellFormed(entries) && exact < |entries| && wild < |entries|
    requires IsGlob(entries[exact]) && IsGlob(entries[wild])
    requires exists a, b, x, y :: MoreLiteral(entries[exact].glob.value, entries[wild].glob.value, a, b, x, y)
    requires Matches(fn, entries[exact], path)
    ensures Chosen(fn, entries, path) != Some(wild)
  {
    var a, b, x, y :| MoreLiteral(entries[exact].glob.value, entries[wild].glob.value, a, b, x, y);
    LiteralScoresMore(a, b, x, y);
    BestSoFar(fn, entries, path, |entries|, exact);
  }

  predicate IsGlob(e: Entry) { e.path.None? && e.glob.Some? && !e.retired }

  predicate MoreLiteral(p: string, q: string, a: seq<string>, b: seq<string>, x: string, y: string) {
    SplitOn(p, '/') == a + [x] + b && SplitOn(q, '/') == a + [y] + b && !Wild(x) && Wild(y)
  }

  /** A directory beats an extension: files below it go to `dir` with two stars, whether `*.ext`
      is listed before or after. */
  lemma DirectoryBeatsExtension(fn: SegmentMatch, dir: string, ext: string, path: string)
    requires '/' !in dir && !Wild(dir) && '/' !in ext && ext != ""
    requires GlobMatch(fn, dir + "/**", path) && GlobMatch(fn, "*" + ext, path)
    ensures var below, named := Entry(None, Some(dir + "/**"), false), Entry(None, Some("*" + ext), false);
      Chosen(fn, [named, below], path) == Some(1) && Chosen(fn, [below, named], path) == Some(0)
  {
    var below, named := Entry(None, Some(dir + "/**"), false), Entry(None, Some("*" + ext), false);
    DirectoryScore(dir);
    ExtensionScore(ext);
    SecondOfTwo(fn, named, below, path);
    FirstOfTwo(fn, below, named, path);
  }

  lemma DirectoryScore(dir: string)
    requires '/' !in dir && !Wild(dir)
    ensures Score(SplitOn(dir + "/**", '/')) == 2
  {
    assert dir + "/**" == dir + ['/'] + "**";
    SplitFirst(dir, '/', "**");
    FindNothing("**", '/');
    assert [dir] + ["**"] == ([] + [dir]) + ["**"];
    assert dir != "**" && dir != "*" by { assert '*' !in dir && '*' in "**" && '*' in "*"; }
    SegmentAdds([], dir);
    SegmentAdds([] + [dir], "**");
  }

  lemma ExtensionScore(ext: string)
    requires '/' !in ext && ext != ""
    ensures Score(SplitOn("*" + ext, '/')) <= 1
  {
    FindNothing("*" + ext, '/');
    assert ["*" + ext] == [] + ["*" + ext];
    assert ("*" + ext)[0] == '*' && '*' in "*" + ext;
    SegmentAdds([], "*" + ext);
  }

  /** Retiring an entry takes away its files and no others. */
  lemma RetiringFreesItsFiles(fn: SegmentMatch, entries: seq<Entry>, path: string, i: nat)
    requires WellFormed(entries) && i < |entries|
    ensures var after := entries[i := entries[i].(retired := true)];
      && WellFormed(after) && Chosen(fn, after, path) != Some(i)
      && (Chosen(fn, entries, path) != Some(i) ==> Chosen(fn, after, path) == Chosen(fn, entries, path))
  {
    var after := entries[i := entries[i].(retired := true)];
    var r, r' := Chosen(fn, entries, path), Chosen(fn, after, path);
    assert forall k :: 0 <= k < |entries| && k != i ==> after[k] == entries[k];
    if r != Some(i) {
      if r.Some? {
        ChosenIsBest(fn, entries, path, r.value);
        assert IsBest(fn, after, path, r.value);
        ChosenIsBest(fn, after, path, r.value);
      } else {
        ChosenIsBest(fn, entries, path, 0);
        ChosenIsBest(fn, after, path, 0);
      }
    }
  }

  // ---- the whole run ------------------------------------------------------

  datatype Report =
    | Report(unmatched: seq<string>, buckets: seq<seq<string>>, unused: seq<nat>)
    | KeyError

  /** The governed files whose choice is `choice`, in order. */
  function FilesFor(fn: SegmentMatch, entries: seq<Entry>, files: seq<string>, choice: Option<nat>): seq<string>
    requires WellFormed(entries)
  {
    if files == [] then []
    else
      var last := files[|files| - 1];
      FilesFor(fn, entries, files[..|files| - 1], choice)
      + (if Governed(last) && Chosen(fn, entries, last) == choice then [last] else [])
  }

  lemma FilesForAppend(fn: SegmentMatch, entries: seq<Entry>, files: seq<string>, path: string, choice: Option<nat>)
    requires WellFormed(entries)
    ensures FilesFor(fn, entries, files + [path], choice) == FilesFor(fn, entries, files, choice)
      + (if Governed(path) && Chosen(fn, entries, path) == choice then [path] else [])
  {
    assert (files + [path])[..|files|] == files;
  }

  method ChooseEntry(fn: SegmentMatch, entries: seq<Entry>, path: string) returns (bestIdx: Option<nat>, crashed: bool)
    ensures crashed <==> !WellFormed(entries)
    ensures !crashed ==> bestIdx == Chosen(fn, entries, path)
  {
    bestIdx := None;
    var bestScore: int := -1;
    for idx := 0 to |entries|
      invariant forall i :: 0 <= i < idx ==> !entries[i].Malformed()
      invariant bestIdx.Some? ==> bestIdx.value < idx && !entries[bestIdx.value].retired
      invariant bestScore == if bestIdx.None? then -1 else Specificity(entries[bestIdx.value])
      invariant WellFormed(entries) ==> bestIdx == Best(fn, entries, path, idx)
    {
      if entries[idx].Malformed() {
        return None, true;
      }
      if !Matches(fn, entries[idx], path) {
        continue;
      }
      var score := Specificity(entries[idx]);
      if score > bestScore {
        bestIdx := Some(idx);
        bestScore := score;
      }
    }
    crashed := false;
  }

  method CheckFiles(fn: SegmentMatch, entries: seq<Entry>, files: seq<string>) returns (r: Report)
    ensures r.KeyError? <==> !WellFormed(entries) && exists f :: f in files && Governed(f)
    ensures r.Report? && WellFormed(entries) ==>
      && r.unmatched == FilesFor(fn, entries, files, None)
      && |r.buckets| == |entries|
      && (forall i :: 0 <= i < |entries| ==> r.buckets[i] == FilesFor(fn, entries, files, Some(i)))
    ensures r.Report? && !WellFormed(entries) ==>
      r.unmatched == [] && |r.buckets| == |entries| && forall i :: 0 <= i < |entries| ==> r.buckets[i] == []
    ensures r.Report? ==> |r.buckets| == |entries|
    ensures r.Report? ==>
      forall i: nat :: i in r.unused <==> i < |entries| && !entries[i].retired && r.buckets[i] == []
    ensures r.Report? ==> forall i, j :: 0 <= i < j < |r.unused| ==> r.unused[i] < r.unused[j]
  {
    var unmatched: seq<string> := [];
    var buckets: seq<seq<string>> := seq(|entries|, _ => []);
    for n := 0 to |files|
      invariant |buckets| == |entries|
      invariant !WellFormed(entries) ==> forall k :: 0 <= k < n ==> !Governed(files[k])
      invariant !WellFormed(entries) ==> unmatched == [] && forall i :: 0 <= i < |entries| ==> buckets[i] == []
      invariant WellFormed(entries) ==> unmatched == FilesFor(fn, entries, files[..n], None)
      invariant WellFormed(entries) ==>
        forall i :: 0 <= i < |entries| ==> buckets[i] == FilesFor(fn, entries, files[..n], Some(i))
    {
      assert files[..n + 1] == files[..n] + [files[n]];
      if WellFormed(entries) {
        FilesForAppend(fn, entries, files[..n], files[n], None);
        forall i | 0 <= i < |entries| { FilesForAppend(fn, entries, files[..n], files[n], Some(i)); }
      }
      if !Governed(files[n]) {
        continue;
      }
      var bestIdx, crashed := ChooseEntry(fn, entries, files[n]);
      if crashed {
        assert files[n] in files;
        return KeyError;
      }
      if bestIdx.None? {
        unmatched := unmatched + [files[n]];
      } else {
        buckets := buckets[bestIdx.value := buckets[bestIdx.value] + [files[n]]];
      }
    }
    assert files[..|files|] == files;
    var unused := UnusedEntries(entries, buckets);
    return Report(unmatched, buckets, unused);
  }

  method UnusedEntries(entries: seq<Entry>, buckets: seq<seq<string>>) returns (unused: seq<nat>)
    requires |buckets| == |entries|
    ensures forall i: nat :: i in unused <==> i < |entries| && !entries[i].retired && buckets[i] == []
    ensures forall i, j :: 0 <= i < j < |unused| ==> unused[i] < unused[j]
  {
    unused := [];
    for idx := 0 to |entries|
      invariant forall i: nat :: i in unused <==> i < idx && !entries[i].retired && buckets[i] == []
      invariant forall i, j :: 0 <= i < j < |unused| ==> unused[i] < unused[j]
    {
      if entries[idx].retired {
        continue;
      }
      if buckets[idx] == [] {
        assert forall k :: 0 <= k < |unused| ==> unused[k] in unused;
        unused := unused + [idx];
      }
    }
  }

  // ---- the buckets partition the governed files ---------------------------

  function Sum(counts: seq<nat>, n: nat): nat
    requires n <= |counts|
  {
    if n == 0 then 0 else Sum(counts, n - 1) + counts[n - 1]
  }

  /** How often a file is in each bucket. */
  ghost function Counts(fn: SegmentMatch, entries: seq<Entry>, files: seq<string>, path: string): seq<nat>
    requires WellFormed(entries)
  {
    seq(|entries|, i requires 0 <= i < |entries| => multiset(FilesFor(fn, entries, files, Some(i)))[path])
  }

  lemma {:induction false} SumOneMore(before: seq<nat>, after: seq<nat>, n: nat, at: Option<nat>)
    requires n <= |before| == |after|
    requires forall i: nat :: i < n ==> after[i] == before[i] + if at == Some(i) then 1 else 0
    ensures Sum(after, n) == Sum(before, n) + if at.Some? && at.value < n then 1 else 0
  {
    if 0 < n {
      SumOneMore(before, after, n - 1, at);
    }
  }

  lemma {:induction false} SumOfNone(counts: seq<nat>, n: nat)
    requires n <= |counts| && forall i :: 0 <= i < n ==> counts[i] == 0
    ensures Sum(counts, n) == 0
  {
    if 0 < n {
      SumOfNone(counts, n - 1);
    }
  }

  /** One more file: it counts in the list of its choice if it is governed, and nowhere else. */
  lemma CountAppend(
    fn: SegmentMatch, entries: seq<Entry>, files: seq<string>, file: string, choice: Option<nat>, path: string)
    requires WellFormed(entries)
    ensures multiset(FilesFor(fn, entries, files + [file], choice))[path]
         == multiset(FilesFor(fn, entries, files, choice))[path]
            + if file == path && Governed(file) && Chosen(fn, entries, file) == choice then 1 else 0
  {
    FilesForAppend(fn, entries, files, file, choice);
  }

  lemma BucketsAppend(fn: SegmentMatch, entries: seq<Entry>, files: seq<string>, file: string, path: string)
    requires WellFormed(entries)
    ensures Sum(Counts(fn, entries, files + [file], path), |entries|)
         == Sum(Counts(fn, entries, files, path), |entries|)
            + if file == path && Governed(file) && Chosen(fn, entries, file).Some? then 1 else 0
  {
    var before, after := Counts(fn, entries, files, path), Counts(fn, entries, files + [file], path);
    var at := if file == path && Governed(file) then Chosen(fn, entries, file) else None;
    forall i: nat | i < |entries|
      ensures after[i] == before[i] + if at == Some(i) then 1 else 0
    {
      CountAppend(fn, entries, files, file, Some(i), path);
    }
    SumOneMore(before, after, |entries|, at);
  }

  /** Each governed file is in exactly one place, one bucket or the unmatched list, as often as
      it occurs; a file that is not governed is in none. */
  lemma {:induction false} BucketsPartition(fn: SegmentMatch, entries: seq<Entry>, files: seq<string>, path: string)
    requires WellFormed(entries)
    ensures Sum(Counts(fn, entries, files, path), |entries|) + multiset(FilesFor(fn, entries, files, None))[path]
         == if Governed(path) then multiset(files)[path] else 0
  {
    if files == [] {
      SumOfNone(Counts(fn, entries, files, path), |entries|);
    } else {
      var front, last := files[..|files| - 1], files[|files| - 1];
      assert files == front + [last];
      BucketsPartition(fn, entries, front, path);
      BucketsAppend(fn, entries, front, last, path);
      CountAppend(fn, entries, front, last, None, path);
    }
  }

  /** A file is reported unmatched exactly when it is governed and no live entry matches it. */
  lemma {:induction false} UnmatchedMeaning(fn: SegmentMatch, entries: seq<Entry>, files: seq<string>, path: string)
    requires WellFormed(entries)
    ensures path in FilesFor(fn, entries, files, None) <==>
      path in files && Governed(path) && forall i :: 0 <= i < |entries| ==> !Matches(fn, entries[i], path)
  {
    ChosenIsBest(fn, entries, path, 0);
    if files != [] {
      var front, last := files[..|files| - 1], files[|files| - 1];
      assert files == front + [last];
      UnmatchedMeaning(fn, entries, front, path);
    }
  }

  /** A file is in a bucket exactly when that entry is the best for it. */
  lemma {:induction false} BucketMeaning(
    fn: SegmentMatch, entries: seq<Entry>, files: seq<string>, path: string, i: nat)
    requires WellFormed(entries) && i < |entries|
    ensures path in FilesFor(fn, entries, files, Some(i)) <==>
      path in files && Governed(path) && IsBest(fn, entries, path, i)
  {
    ChosenIsBest(fn, entries, path, i);
    if files != [] {
      var front, last := files[..|files| - 1], files[|files| - 1];
      assert files == front + [last];
      BucketMeaning(fn, entries, front, path, i);
    }
  }
}
