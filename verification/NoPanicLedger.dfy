/** The no-panic allowlist: matching findings to entries, and proposing entries for the rest. */
module NoPanicLedger {
  import opened Text
  import opened NoPanicScan

  function KindFor(family: string): string {
    if family in {"panic_macro", "todo", "unimplemented", "unreachable"} then "macro_call"
    else if family in {"indexing", "string_slice"} then "index_expr"
    else "method_call"
  }

  // ---- the fingerprint ----------------------------------------------------

  const FINGERPRINT_LIMIT := 80

  /** Every run of white characters becomes one blank. */
  function Collapse(s: string): string
    decreases |s|
  {
    if s == "" then ""
    else if PythonSpace(s[0]) then
      var i := Skip(s, 1);
      " " + Collapse(s[i..])
    else [s[0]] + Collapse(s[1..])
  }

  /** The first position from `i` that is not white. */
  function Skip(s: string, i: nat): (r: nat)
    requires i <= |s|
    ensures i <= r <= |s|
    decreases |s| - i
  {
    if i < |s| && PythonSpace(s[i]) then Skip(s, i + 1) else i
  }

  function Fingerprint(snippet: string): string {
    var s := Trim(PythonSpace, snippet);
    Collapse(if |s| > FINGERPRINT_LIMIT then s[..FINGERPRINT_LIMIT] else s)
  }

  /** The visible characters of a text. */
  function Ink(s: string): string {
    if s == "" then "" else (if PythonSpace(s[0]) then "" else [s[0]]) + Ink(s[1..])
  }

  ghost predicate SingleBlanks(s: string) {
    && (forall i :: 0 <= i < |s| && PythonSpace(s[i]) ==> s[i] == ' ')
    && (forall i :: 0 <= i < |s| - 1 ==> !(s[i] == ' ' && s[i + 1] == ' '))
  }

  lemma {:induction false} InkSkips(s: string, i: nat)
    requires i <= |s|
    ensures Ink(s[Skip(s, i)..]) == Ink(s[i..])
    ensures Skip(s, i) < |s| ==> !PythonSpace(s[Skip(s, i)])
    decreases |s| - i
  {
    if i < |s| && PythonSpace(s[i]) {
      InkSkips(s, i + 1);
      assert s[i..][1..] == s[i + 1..];
    }
  }

  lemma {:induction false} CollapseMeaning(s: string)
    ensures Ink(Collapse(s)) == Ink(s) && |Collapse(s)| <= |s| && SingleBlanks(Collapse(s))
    ensures s != "" && !PythonSpace(s[0]) ==> Collapse(s) != "" && Collapse(s)[0] == s[0]
    decreases |s|
  {
    if s != "" {
      if PythonSpace(s[0]) {
        var i := Skip(s, 1);
        InkSkips(s, 1);
        CollapseMeaning(s[i..]);
        assert (" " + Collapse(s[i..]))[1..] == Collapse(s[i..]);
      } else {
        CollapseMeaning(s[1..]);
        assert ([s[0]] + Collapse(s[1..]))[1..] == Collapse(s[1..]);
      }
    }
  }

  /** A fingerprint is at most 80 characters, has only single blanks, and shows exactly the
      visible characters among the first 80 of the trimmed snippet. */
  lemma FingerprintMeaning(snippet: string)
    ensures var s, fp := Trim(PythonSpace, snippet), Fingerprint(snippet);
      && |fp| <= FINGERPRINT_LIMIT && SingleBlanks(fp)
      && Ink(fp) == Ink(if |s| < 80 then s else s[..80])
  {
    var s := Trim(PythonSpace, snippet);
    CollapseMeaning(if |s| > FINGERPRINT_LIMIT then s[..FINGERPRINT_LIMIT] else s);
    assert |s| == 80 ==> s[..80] == s;
  }

  lemma {:induction false} SkipRun(run: string, rest: string, i: nat)
    requires i <= |run| && (forall c :: c in run ==> PythonSpace(c)) && (rest == "" || !PythonSpace(rest[0]))
    ensures Skip(run + rest, i) == |run|
    decreases |run| - i
  {
    if i < |run| {
      assert (run + rest)[i] == run[i] && run[i] in run;
      SkipRun(run, rest, i + 1);
    } else {
      assert rest != "" ==> (run + rest)[i] == rest[0];
    }
  }

  lemma {:induction false} SkipInside(a: string, rest: string, i: nat)
    requires i <= |a| && a != "" && !PythonSpace(a[|a| - 1]) && i < |a|
    ensures Skip(a + rest, i) == Skip(a, i) < |a|
    decreases |a| - i
  {
    assert (a + rest)[i] == a[i];
    if PythonSpace(a[i]) {
      SkipInside(a, rest, i + 1);
    }
  }

  predicate EndsVisible(s: string) { s != "" ==> !PythonSpace(s[|s| - 1]) }

  predicate White(run: string) { run != "" && forall c :: c in run ==> PythonSpace(c) }

  /** Words stay apart: each run of white characters between them becomes one blank. */
  lemma {:induction false} CollapseRun(a: string, run: string, b: string)
    requires EndsVisible(a) && White(run) && (b == "" || !PythonSpace(b[0]))
    ensures Collapse(a + (run + b)) == Collapse(a) + (" " + Collapse(b))
    decreases |a|
  {
    var rest := run + b;
    if a == "" {
      assert a + rest == rest;
      LeadingRun(run, b);
      assert Collapse(a) + (" " + Collapse(b)) == " " + Collapse(b);
    } else {
      var t := a[HeadLength(a)..];
      HeadKept(a, rest);
      CollapseRun(t, run, b);
      HeadKept(a, "");
      assert a + "" == a && t + "" == t;
      Associate(Head(a), Collapse(t), " " + Collapse(b));
    }
  }

  /** How much of a text its first collapsed character stands for. */
  function HeadLength(a: string): (i: nat)
    requires a != ""
    ensures 1 <= i <= |a|
  {
    if PythonSpace(a[0]) then Skip(a, 1) else 1
  }

  function Head(a: string): string
    requires a != ""
  {
    if PythonSpace(a[0]) then " " else [a[0]]
  }

  lemma HeadKept(a: string, rest: string)
    requires a != "" && EndsVisible(a)
    ensures EndsVisible(a[HeadLength(a)..])
    ensures Collapse(a + rest) == Head(a) + Collapse(a[HeadLength(a)..] + rest)
  {
    assert (a + rest)[0] == a[0];
    if PythonSpace(a[0]) { SkipInside(a, rest, 1); }
    var i := HeadLength(a);
    assert (a + rest)[i..] == a[i..] + rest;
    assert i < |a| ==> a[i..][|a| - i - 1] == a[|a| - 1];
  }

  lemma LeadingRun(run: string, b: string)
    requires White(run) && (b == "" || !PythonSpace(b[0]))
    ensures Collapse(run + b) == " " + Collapse(b)
  {
    assert (run + b)[0] == run[0] && run[0] in run;
    SkipRun(run, b, 1);
    assert (run + b)[|run|..] == b;
  }

  lemma Associate(a: string, b: string, c: string)
    ensures a + (b + c) == (a + b) + c
  {
  }

  lemma {:induction false} CollapseFixed(s: string)
    requires SingleBlanks(s)
    ensures Collapse(s) == s
    decreases |s|
  {
    if s != "" {
      CollapseFixed(s[1..]);
      if PythonSpace(s[0]) {
        assert 1 < |s| ==> !PythonSpace(s[1]);
        assert Skip(s, 1) == 1;
        assert s == " " + s[1..];
      } else {
        assert s == [s[0]] + s[1..];
      }
    }
  }

  /** A short snippet without stray blanks is its own fingerprint. */
  lemma FingerprintFixed(s: string)
    requires Trimmed(PythonSpace, s) && |s| <= FINGERPRINT_LIMIT && SingleBlanks(s)
    ensures Fingerprint(s) == s
  {
    TrimFixed(PythonSpace, s);
    CollapseFixed(s);
  }

  lemma {:induction false} InkMember(s: string, c: char)
    requires !PythonSpace(c)
    ensures c in Ink(s) <==> c in s
  {
    if s != "" {
      InkMember(s[1..], c);
      assert s == [s[0]] + s[1..];
    }
  }

  lemma FingerprintVisible(snippet: string)
    requires Trimmed(PythonSpace, snippet) && snippet != ""
    ensures Fingerprint(snippet) != ""
  {
    TrimFixed(PythonSpace, snippet);
  }

  // ---- entries and matching -----------------------------------------------

  /** An absent selector field and an empty one are the same to the matcher. */
  datatype Selector = Selector(kind: string, container: string, callee: string, fingerprint: string)

  datatype Entry = Entry(path: Option<string>, family: Option<string>, selector: Selector, retired: bool)

  function SelectorOf(f: Finding): Selector {
    Selector(KindFor(f.family), f.container, f.family, Fingerprint(f.snippet))
  }

  function Bar(part: string, rest: string): string { part + "|" + rest }

  /** The text the identity hashes: six parts joined by bars. */
  function Key(f: Finding): string {
    var s := SelectorOf(f);
    Bar(f.path, Bar(f.family, Bar(s.kind, Bar(s.container, Bar(s.callee, s.fingerprint)))))
  }

  predicate SelectorMatches(f: Finding, e: Entry) {
    && e.path == Some(f.path) && e.family == Some(f.family)
    && (e.selector.kind == "" || e.selector.kind == KindFor(f.family))
    && (e.selector.container == "" || e.selector.container == f.container)
    && (e.selector.callee == "" || e.selector.callee == f.family || e.selector.callee == "[]")
    && (e.selector.fingerprint == "" || e.selector.fingerprint == Fingerprint(f.snippet))
  }

  // ---- how the selector decides -------------------------------------------

  predicate InPlace(f: Finding, e: Entry) { e.path == Some(f.path) && e.family == Some(f.family) }

  /** Without a selector an entry matches everything of its family in its file. */
  lemma BlankSelectorMatches(f: Finding, e: Entry)
    ensures SelectorMatches(f, e.(selector := Selector("", "", "", ""))) <==> InPlace(f, e)
  {
  }

  /** One filled field alone decides; a callee of two brackets stands for any. */
  lemma FieldAlone(f: Finding, e: Entry, text: string)
    requires InPlace(f, e)
    ensures SelectorMatches(f, e.(selector := Selector(text, "", "", ""))) <==> text in {"", KindFor(f.family)}
    ensures SelectorMatches(f, e.(selector := Selector("", text, "", ""))) <==> text in {"", f.container}
    ensures SelectorMatches(f, e.(selector := Selector("", "", text, ""))) <==> text in {"", f.family, "[]"}
    ensures SelectorMatches(f, e.(selector := Selector("", "", "", text))) <==> text in {"", Fingerprint(f.snippet)}
  {
  }

  /** Together the fields decide as each does alone. */
  lemma FieldsDecide(f: Finding, e: Entry)
    ensures var s := e.selector;
      SelectorMatches(f, e) <==>
        && SelectorMatches(f, e.(selector := Selector(s.kind, "", "", "")))
        && SelectorMatches(f, e.(selector := Selector("", s.container, "", "")))
        && SelectorMatches(f, e.(selector := Selector("", "", s.callee, "")))
        && SelectorMatches(f, e.(selector := Selector("", "", "", s.fingerprint)))
  {
  }

  /** So blanking fields of a matching entry keeps it matching. */
  lemma BlankingKeeps(f: Finding, e: Entry, s: Selector)
    requires SelectorMatches(f, e)
    requires s.kind in {"", e.selector.kind} && s.container in {"", e.selector.container}
    requires s.callee in {"", e.selector.callee} && s.fingerprint in {"", e.selector.fingerprint}
    ensures SelectorMatches(f, e.(selector := s))
  {
    var e' := e.(selector := s);
    FieldsDecide(f, e);
    FieldsDecide(f, e');
  }

  /** The kinds the selector tells families apart by. */
  lemma KindTable(family: string)
    ensures KindFor(family) == "macro_call" <==> family in {"panic_macro", "todo", "unimplemented", "unreachable"}
    ensures KindFor(family) == "index_expr" <==> family in {"indexing", "string_slice"}
    ensures KindFor(family) in {"macro_call", "index_expr", "method_call"}
  {
    assert "macro_call"[1] == 'a' && "index_expr"[1] == 'n' && "method_call"[1] == 'e';
    assert "indexing"[0] == 'i' && "string_slice"[0] == 's' && "panic_macro"[0] == 'p';
    assert "todo"[0] == 't' && "unimplemented"[0] == 'u' && "unreachable"[0] == 'u';
  }

  /** The entry that receipts a finding: the first that matches. */
  function FirstMatch(f: Finding, entries: seq<Entry>): (r: Option<nat>)
    ensures r.None? <==> forall e :: e in entries ==> !SelectorMatches(f, e)
    ensures r.Some? ==> r.value < |entries| && SelectorMatches(f, entries[r.value])
    ensures r.Some? ==> forall i :: 0 <= i < r.value ==> !SelectorMatches(f, entries[i])
  {
    FirstMatchFrom(f, entries, 0)
  }

  function FirstMatchFrom(f: Finding, entries: seq<Entry>, i: nat): (r: Option<nat>)
    requires i <= |entries|
    ensures r.None? <==> forall k :: i <= k < |entries| ==> !SelectorMatches(f, entries[k])
    ensures r.Some? ==> i <= r.value < |entries| && SelectorMatches(f, entries[r.value])
    ensures r.Some? ==> forall k :: i <= k < r.value ==> !SelectorMatches(f, entries[k])
    decreases |entries| - i
  {
    if i == |entries| then None
    else if SelectorMatches(f, entries[i]) then Some(i)
    else FirstMatchFrom(f, entries, i + 1)
  }

  /** The findings some entry receipts, or those none does, in order. */
  function Select(findings: seq<Finding>, entries: seq<Entry>, receipted: bool): seq<Finding> {
    if findings == [] then []
    else
      var last := findings[|findings| - 1];
      Select(findings[..|findings| - 1], entries, receipted)
      + (if FirstMatch(last, entries).Some? == receipted then [last] else [])
  }

  function Unreceipted(findings: seq<Finding>, entries: seq<Entry>): seq<Finding> {
    Select(findings, entries, false)
  }

  lemma SelectAppend(findings: seq<Finding>, f: Finding, entries: seq<Entry>, receipted: bool)
    ensures Select(findings + [f], entries, receipted)
         == Select(findings, entries, receipted) + (if FirstMatch(f, entries).Some? == receipted then [f] else [])
  {
    assert (findings + [f])[..|findings|] == findings;
  }

  lemma {:induction false} SelectPartition(findings: seq<Finding>, entries: seq<Entry>)
    ensures multiset(Select(findings, entries, true)) + multiset(Select(findings, entries, false)) == multiset(findings)
  {
    if findings != [] {
      var front, last := findings[..|findings| - 1], findings[|findings| - 1];
      assert findings == front + [last];
      SelectPartition(front, entries);
      SelectAppend(front, last, entries, true);
      SelectAppend(front, last, entries, false);
    }
  }

  /** An entry without a selector receipts every finding of its family in its file, wherever it
      stands in the list. */
  lemma CoarseEntryReceipts(findings: seq<Finding>, entries: seq<Entry>, e: Entry)
    requires e in entries && e.selector == Selector("", "", "", "")
    ensures forall f :: f in findings && InPlace(f, e) ==>
              f in Select(findings, entries, true) && f !in Select(findings, entries, false)
  {
    SelectMembers(findings, entries, true);
    SelectMembers(findings, entries, false);
    forall f | f in findings && InPlace(f, e)
      ensures FirstMatch(f, entries).Some?
    {
      BlankSelectorMatches(f, e);
      assert SelectorMatches(f, e);
    }
  }

  lemma {:induction false} SelectMembers(findings: seq<Finding>, entries: seq<Entry>, receipted: bool)
    ensures forall f :: f in Select(findings, entries, receipted) <==>
              f in findings && FirstMatch(f, entries).Some? == receipted
  {
    if findings != [] {
      SelectMembers(findings[..|findings| - 1], entries, receipted);
      assert findings == findings[..|findings| - 1] + [findings[|findings| - 1]];
    }
  }

  predicate Matched(findings: seq<Finding>, entries: seq<Entry>, idx: nat) {
    exists f :: f in findings && FirstMatch(f, entries) == Some(idx)
  }

  /** Stale entries: live ones that no finding reaches first. */
  predicate Stale(findings: seq<Finding>, entries: seq<Entry>, idx: nat) {
    idx < |entries| && !entries[idx].retired && !Matched(findings, entries, idx)
  }

  /** Retiring an entry ends its staleness, and it goes on receipting what it did. */
  lemma RetiredNeverStale(findings: seq<Finding>, entries: seq<Entry>, idx: nat)
    requires idx < |entries|
    ensures var after := entries[idx := entries[idx].(retired := true)];
      && !Stale(findings, after, idx)
      && forall f :: FirstMatch(f, after) == FirstMatch(f, entries)
  {
    var after := entries[idx := entries[idx].(retired := true)];
    forall f
      ensures FirstMatch(f, after) == FirstMatch(f, entries)
    {
      forall i | 0 <= i < |entries|
        ensures SelectorMatches(f, after[i]) == SelectorMatches(f, entries[i])
      {
      }
      SameMatches(f, after, entries);
    }
  }

  lemma SameMatches(f: Finding, a: seq<Entry>, b: seq<Entry>)
    requires |a| == |b| && forall i :: 0 <= i < |a| ==> SelectorMatches(f, a[i]) == SelectorMatches(f, b[i])
    ensures FirstMatch(f, a) == FirstMatch(f, b)
  {
    if FirstMatch(f, a).Some? { assert b[FirstMatch(f, a).value] in b; }
    if FirstMatch(f, b).Some? { assert a[FirstMatch(f, b).value] in a; }
  }

  /** Looks for the first entry that matches. */
  method FindHit(f: Finding, entries: seq<Entry>) returns (hit: Option<nat>)
    ensures hit == FirstMatch(f, entries)
  {
    for idx := 0 to |entries|
      invariant forall i :: 0 <= i < idx ==> !SelectorMatches(f, entries[i])
    {
      if SelectorMatches(f, entries[idx]) {
        return Some(idx);
      }
    }
    return None;
  }

  /** The first pass of a run: which findings no entry receipts, which entries were reached. */
  method MatchFindings(findings: seq<Finding>, entries: seq<Entry>)
    returns (matched: set<nat>, unreceipted: seq<Finding>, receipted: seq<Finding>)
    ensures unreceipted == Unreceipted(findings, entries)
    ensures receipted == Select(findings, entries, true)
    ensures multiset(receipted) + multiset(unreceipted) == multiset(findings)
    ensures forall idx: nat :: idx in matched <==> Matched(findings, entries, idx)
  {
    matched, unreceipted, receipted := {}, [], [];
    for n := 0 to |findings|
      invariant unreceipted == Unreceipted(findings[..n], entries)
      invariant receipted == Select(findings[..n], entries, true)
      invariant forall idx: nat :: idx in matched <==> Matched(findings[..n], entries, idx)
    {
      var hit := FindHit(findings[n], entries);
      assert findings[..n + 1] == findings[..n] + [findings[n]];
      SelectAppend(findings[..n], findings[n], entries, true);
      SelectAppend(findings[..n], findings[n], entries, false);
      MatchedAppend(findings[..n], findings[n], entries);
      if hit.None? {
        unreceipted := unreceipted + [findings[n]];
      } else {
        matched := matched + {hit.value};
        receipted := receipted + [findings[n]];
      }
    }
    assert findings[..|findings|] == findings;
    SelectPartition(findings, entries);
  }

  lemma MatchedAppend(findings: seq<Finding>, f: Finding, entries: seq<Entry>)
    ensures forall idx: nat :: Matched(findings + [f], entries, idx) <==>
              (Matched(findings, entries, idx) || FirstMatch(f, entries) == Some(idx))
  {
    assert forall g :: g in findings + [f] <==> g in findings || g == f;
  }

  /** The second pass: the live entries that were not reached, in order. */
  method StaleEntries(findings: seq<Finding>, entries: seq<Entry>, matched: set<nat>)
    returns (stale: seq<nat>)
    requires forall idx: nat :: idx in matched <==> Matched(findings, entries, idx)
    ensures forall idx: nat :: idx in stale <==> Stale(findings, entries, idx)
    ensures forall i, j :: 0 <= i < j < |stale| ==> stale[i] < stale[j]
  {
    stale := [];
    for idx := 0 to |entries|
      invariant forall i: nat :: i in stale <==> i < idx && Stale(findings, entries, i)
      invariant forall i, j :: 0 <= i < j < |stale| ==> stale[i] < stale[j]
    {
      if idx !in matched && !entries[idx].retired {
        assert forall i :: 0 <= i < |stale| ==> stale[i] in stale;
        stale := stale + [idx];
      }
    }
  }

  // ---- proposing ----------------------------------------------------------

  /** The strings a proposed record puts between quotes, one to a line. */
  datatype Record = Record(path: string, family: string, explanation: string, selector: Selector)

  const EXPLANATION_LIMIT := 60

  function ReplaceQuotes(s: string): string {
    seq(|s|, i requires 0 <= i < |s| => if s[i] == '"' then '\'' else s[i])
  }

  function Explanation(f: Finding): string {
    "TODO: " + ReplaceQuotes(if |f.snippet| < EXPLANATION_LIMIT then f.snippet else f.snippet[..EXPLANATION_LIMIT])
  }

  /** It shows the first 60 characters of the snippet, double quotes turned to single ones. */
  lemma ExplanationText(f: Finding)
    ensures var text := Explanation(f);
      && |text| == 6 + (if |f.snippet| < 60 then |f.snippet| else 60) && text[..6] == "TODO: "
      && forall i :: 0 <= i < |text| - 6 ==> text[6 + i] == if f.snippet[i] == '"' then '\'' else f.snippet[i]
  {
  }

  function RecordOf(f: Finding): Record {
    Record(f.path, f.family, Explanation(f), SelectorOf(f))
  }

  function Identities(identity: Finding -> string, findings: seq<Finding>): set<string> {
    set f | f in findings :: identity(f)
  }

  /** One finding for each identity, at its first appearance. */
  function Firsts(identity: Finding -> string, findings: seq<Finding>): seq<Finding> {
    if findings == [] then []
    else
      var front, last := findings[..|findings| - 1], findings[|findings| - 1];
      Firsts(identity, front) + (if identity(last) in Identities(identity, front) then [] else [last])
  }

  function Records(findings: seq<Finding>): seq<Record> {
    seq(|findings|, i requires 0 <= i < |findings| => RecordOf(findings[i]))
  }

  lemma FirstsAppend(identity: Finding -> string, front: seq<Finding>, last: Finding)
    ensures Identities(identity, front + [last]) == Identities(identity, front) + {identity(last)}
    ensures Firsts(identity, front + [last])
         == Firsts(identity, front) + (if identity(last) in Identities(identity, front) then [] else [last])
  {
    var all := front + [last];
    assert all[..|all| - 1] == front;
    assert forall f :: f in all <==> f in front || f == last;
  }

  lemma RecordsAppend(findings: seq<Finding>, f: Finding)
    ensures Records(findings + [f]) == Records(findings) + [RecordOf(f)]
  {
  }

  method WriteProposed(identity: Finding -> string, unreceipted: seq<Finding>) returns (records: seq<Record>)
    ensures records == Records(Firsts(identity, unreceipted))
  {
    records := [];
    var usedIds: set<string> := {};
    for n := 0 to |unreceipted|
      invariant usedIds == Identities(identity, unreceipted[..n])
      invariant records == Records(Firsts(identity, unreceipted[..n]))
    {
      var finding := unreceipted[n];
      FirstsAppend(identity, unreceipted[..n], finding);
      assert unreceipted[..n + 1] == unreceipted[..n] + [finding];
      var ident := identity(finding);
      if ident in usedIds {
        continue;
      }
      RecordsAppend(Firsts(identity, unreceipted[..n]), finding);
      usedIds := usedIds + {ident};
      records := records + [RecordOf(finding)];
    }
    assert unreceipted[..|unreceipted|] == unreceipted;
  }

  // ---- identities ---------------------------------------------------------

  /** The source's identity: the joined key, hashed. */
  function Identity(digest: string -> string): Finding -> string {
    (f: Finding) => digest(Key(f))
  }

  predicate SameKey(f: Finding, g: Finding) {
    f.path == g.path && f.family == g.family && f.container == g.container
    && Fingerprint(f.snippet) == Fingerprint(g.snippet)
  }

  lemma KeyText(f: Finding)
    ensures Key(f) == f.path + "|" + f.family + "|" + KindFor(f.family) + "|" + f.container + "|" + f.family
                      + "|" + Fingerprint(f.snippet)
  {
  }

  /** The joined key tells findings apart: only its last part may hold a bar. */
  lemma KeyInjective(f: Finding, g: Finding)
    requires '|' !in f.path && '|' !in f.family && '|' !in f.container
    requires '|' !in g.path && '|' !in g.family && '|' !in g.container
    ensures Key(f) == Key(g) <==> SameKey(f, g)
  {
    if Key(f) == Key(g) {
      var sf, sg := SelectorOf(f), SelectorOf(g);
      var f1, g1 := Bar(sf.callee, sf.fingerprint), Bar(sg.callee, sg.fingerprint);
      var f2, g2 := Bar(sf.container, f1), Bar(sg.container, g1);
      var f3, g3 := Bar(sf.kind, f2), Bar(sg.kind, g2);
      BarSplit(f.path, Bar(f.family, f3), g.path, Bar(g.family, g3));
      BarSplit(f.family, f3, g.family, g3);
      BarSplit(sf.kind, f2, sg.kind, g2);
      BarSplit(sf.container, f1, sg.container, g1);
      BarSplit(sf.callee, sf.fingerprint, sg.callee, sg.fingerprint);
    }
  }

  lemma BarSplit(a: string, restA: string, b: string, restB: string)
    requires '|' !in a && '|' !in b && Bar(a, restA) == Bar(b, restB)
    ensures a == b && restA == restB
  {
    FindCharAt(a, '|', restA);
    FindCharAt(b, '|', restB);
    assert (a + "|" + restA)[..|a|] == a && (a + "|" + restA)[|a| + 1..] == restA;
    assert (b + "|" + restB)[..|b|] == b && (b + "|" + restB)[|b| + 1..] == restB;
  }

  /** An identity that keeps these findings apart. */
  ghost predicate CollisionFree(identity: Finding -> string, findings: seq<Finding>) {
    forall f, g :: f in findings && g in findings ==> (identity(f) == identity(g) <==> SameKey(f, g))
  }

  ghost predicate Scanned(findings: seq<Finding>) {
    forall f :: f in findings ==> Usable(f) && '|' !in f.path
  }

  /** A digest that keeps the keys apart makes the identity collision-free. */
  lemma IdentityCollisionFree(digest: string -> string, findings: seq<Finding>)
    requires Scanned(findings)
    requires forall f, g :: f in findings && g in findings && digest(Key(f)) == digest(Key(g)) ==> Key(f) == Key(g)
    ensures CollisionFree(Identity(digest), findings)
  {
    forall f, g | f in findings && g in findings
      ensures Identity(digest)(f) == Identity(digest)(g) <==> SameKey(f, g)
    {
      KeyInjective(f, g);
    }
  }

  // ---- which findings are proposed ----------------------------------------

  lemma UnreceiptedMembers(findings: seq<Finding>, entries: seq<Entry>)
    ensures forall f :: f in Unreceipted(findings, entries) <==> f in findings && FirstMatch(f, entries).None?
  {
    SelectMembers(findings, entries, false);
  }

  lemma AllReceipted(findings: seq<Finding>, entries: seq<Entry>)
    ensures Unreceipted(findings, entries) == [] <==> forall f :: f in findings ==> FirstMatch(f, entries).Some?
  {
    UnreceiptedMembers(findings, entries);
    var open := Unreceipted(findings, entries);
    if open != [] {
      assert open[0] in open;
    }
  }

  lemma {:induction false} FirstsMembers(identity: Finding -> string, findings: seq<Finding>)
    ensures forall g :: g in Firsts(identity, findings) ==> g in findings
    ensures Identities(identity, Firsts(identity, findings)) == Identities(identity, findings)
  {
    if findings != [] {
      var front, last := findings[..|findings| - 1], findings[|findings| - 1];
      assert findings == front + [last];
      FirstsMembers(identity, front);
      FirstsAppend(identity, front, last);
      FirstsAppend(identity, Firsts(identity, front), last);
    }
  }

  /** The first finding with the key of `f`. */
  lemma FirstOf(identity: Finding -> string, findings: seq<Finding>, f: Finding) returns (g: Finding)
    requires CollisionFree(identity, findings) && f in findings
    ensures g in Firsts(identity, findings) && SameKey(f, g)
  {
    FirstsMembers(identity, findings);
    assert identity(f) in Identities(identity, Firsts(identity, findings));
    g :| g in Firsts(identity, findings) && identity(g) == identity(f);
  }

  ghost predicate DistinctIdentities(identity: Finding -> string, findings: seq<Finding>) {
    forall i, j :: 0 <= i < j < |findings| ==> identity(findings[i]) != identity(findings[j])
  }

  lemma {:induction false} FirstsDistinct(identity: Finding -> string, findings: seq<Finding>)
    ensures DistinctIdentities(identity, Firsts(identity, findings))
  {
    if findings != [] {
      var front, last := findings[..|findings| - 1], findings[|findings| - 1];
      assert findings == front + [last];
      FirstsDistinct(identity, front);
      FirstsMembers(identity, front);
      var firsts := Firsts(identity, front);
      FirstsAppend(identity, front, last);
      forall i | 0 <= i < |firsts|
        ensures identity(firsts[i]) in Identities(identity, front)
      {
        assert firsts[i] in firsts;
      }
    }
  }

  ghost predicate DistinctKeys(findings: seq<Finding>) {
    forall i, j :: 0 <= i < j < |findings| ==> !SameKey(findings[i], findings[j])
  }

  /** The findings that are proposed. */
  function Proposed(identity: Finding -> string, findings: seq<Finding>, entries: seq<Entry>): seq<Finding> {
    Firsts(identity, Unreceipted(findings, entries))
  }

  lemma ProposedOpen(identity: Finding -> string, findings: seq<Finding>, entries: seq<Entry>, g: Finding)
    requires g in Proposed(identity, findings, entries)
    ensures g in findings && FirstMatch(g, entries).None?
  {
    FirstsMembers(identity, Unreceipted(findings, entries));
    UnreceiptedMembers(findings, entries);
  }

  lemma OpenProposed(identity: Finding -> string, findings: seq<Finding>, entries: seq<Entry>, f: Finding)
    returns (g: Finding)
    requires CollisionFree(identity, findings) && f in findings && FirstMatch(f, entries).None?
    ensures g in Proposed(identity, findings, entries) && SameKey(f, g)
  {
    UnreceiptedMembers(findings, entries);
    g := FirstOf(identity, Unreceipted(findings, entries), f);
  }

  lemma DistinctIdentitiesKeys(identity: Finding -> string, findings: seq<Finding>)
    requires CollisionFree(identity, findings) && DistinctIdentities(identity, findings)
    ensures DistinctKeys(findings)
  {
    forall i, j | 0 <= i < j < |findings|
      ensures !SameKey(findings[i], findings[j])
    {
      assert findings[i] in findings && findings[j] in findings;
    }
  }

  lemma ProposedDistinct(identity: Finding -> string, findings: seq<Finding>, entries: seq<Entry>)
    requires CollisionFree(identity, findings)
    ensures DistinctKeys(Proposed(identity, findings, entries))
  {
    FirstsMembers(identity, Unreceipted(findings, entries));
    UnreceiptedMembers(findings, entries);
    FirstsDistinct(identity, Unreceipted(findings, entries));
    DistinctIdentitiesKeys(identity, Proposed(identity, findings, entries));
  }

  /** Proposed are open findings only, every key of an open finding, and each key once. */
  lemma ProposedCoverOpen(identity: Finding -> string, findings: seq<Finding>, entries: seq<Entry>)
    requires CollisionFree(identity, findings)
    ensures forall g :: g in Proposed(identity, findings, entries) ==> g in findings && FirstMatch(g, entries).None?
    ensures forall f :: f in findings && FirstMatch(f, entries).None? ==>
              exists g :: g in Proposed(identity, findings, entries) && SameKey(f, g)
    ensures DistinctKeys(Proposed(identity, findings, entries))
  {
    forall g | g in Proposed(identity, findings, entries)
      ensures g in findings && FirstMatch(g, entries).None?
    {
      ProposedOpen(identity, findings, entries, g);
    }
    forall f | f in findings && FirstMatch(f, entries).None?
      ensures exists g :: g in Proposed(identity, findings, entries) && SameKey(f, g)
    {
      var g := OpenProposed(identity, findings, entries, f);
    }
    ProposedDistinct(identity, findings, entries);
  }

  lemma FirstMatchAppend(f: Finding, entries: seq<Entry>, more: seq<Entry>)
    ensures FirstMatch(f, entries).Some? ==> FirstMatch(f, entries + more) == FirstMatch(f, entries)
    ensures FirstMatch(f, entries).None? ==>
      FirstMatch(f, entries + more) ==
        match FirstMatch(f, more)
        case None => None
        case Some(i) => Some(|entries| + i)
  {
    var all := entries + more;
    assert forall i :: 0 <= i < |entries| ==> all[i] == entries[i];
    assert forall i :: 0 <= i < |more| ==> all[|entries| + i] == more[i];
    if FirstMatch(f, entries).None? {
      assert forall i :: 0 <= i < |entries| ==> entries[i] in entries;
      if FirstMatch(f, more).Some? {
        assert SelectorMatches(f, all[|entries| + FirstMatch(f, more).value]);
        assert forall i :: |entries| <= i < |all| ==> all[i] == more[i - |entries|];
      } else {
        assert forall e :: e in all ==> e in entries || e in more;
      }
    } else {
      assert SelectorMatches(f, all[FirstMatch(f, entries).value]);
    }
  }

  /** Whatever is appended, the old entries keep their staleness. */
  lemma StaleUnchanged(findings: seq<Finding>, entries: seq<Entry>, more: seq<Entry>, idx: nat)
    requires idx < |entries|
    ensures Stale(findings, entries + more, idx) <==> Stale(findings, entries, idx)
  {
    forall f | f in findings
      ensures FirstMatch(f, entries + more) == Some(idx) <==> FirstMatch(f, entries) == Some(idx)
    {
      FirstMatchAppend(f, entries, more);
    }
  }
}
