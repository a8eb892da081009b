/** The proposed entries as a re-run reads them: written unescaped, they may come back different. */
module NoPanicReload {
  import opened Text
  import opened NoPanicScan
  import opened TomlStrings
  import opened NoPanicLedger

  // ---- reading the proposals back -----------------------------------------

  /** The entry a record's lines read as, if they read at all. */
  function Reread(r: Record): Option<Entry> {
    match (ReadBack(r.path), ReadBack(r.family), ReadBack(r.explanation), RereadSelector(r.selector))
    case (Some(path), Some(family), Some(_), Some(selector)) => Some(Entry(Some(path), Some(family), selector, false))
    case (_, _, _, _) => None
  }

  function RereadSelector(s: Selector): Option<Selector> {
    match (ReadBack(s.kind), ReadBack(s.container), ReadBack(s.callee), ReadBack(s.fingerprint))
    case (Some(kind), Some(container), Some(callee), Some(fingerprint)) =>
      Some(Selector(kind, container, callee, fingerprint))
    case (_, _, _, _) => None
  }

  /** The whole file: one line that does not read makes loading fail. */
  function Reload(records: seq<Record>): Option<seq<Entry>> {
    All(Readings(records))
  }

  function Readings(records: seq<Record>): seq<Option<Entry>> {
    seq(|records|, i requires 0 <= i < |records| => Reread(records[i]))
  }

  // ---- what one record reads as -------------------------------------------

  /** The entry the record of a finding is meant to be. */
  function Proposal(f: Finding): Entry {
    Entry(Some(f.path), Some(f.family), SelectorOf(f), false)
  }

  /** A key both of whose free parts read back as written. */
  predicate PlainKey(f: Finding) { Plain(f.path) && Plain(Fingerprint(f.snippet)) }

  /** No quote, backslash or control character in the path, the fingerprint or the explanation. */
  predicate Writable(f: Finding) { PlainKey(f) && Plain(Explanation(f)) }

  ghost predicate AllWritable(firsts: seq<Finding>) { forall f :: f in firsts ==> Writable(f) }

  lemma KindIsPlain(family: string)
    ensures Plain(KindFor(family))
  {
    assert Plain("macro_call");
    assert Plain("index_expr");
    assert Plain("method_call");
  }

  lemma NamesReadBack(f: Finding)
    requires Usable(f)
    ensures ReadBack(f.family) == Some(f.family) && ReadBack(f.container) == Some(f.container)
    ensures ReadBack(KindFor(f.family)) == Some(KindFor(f.family))
  {
    ReadBackIffPlain(f.family);
    ReadBackIffPlain(f.container);
    KindIsPlain(f.family);
    ReadBackIffPlain(KindFor(f.family));
  }

  /** The record of a usable finding reads as an entry that differs from the one meant only in
      its path and its fingerprint. */
  lemma RereadShape(f: Finding)
    requires Usable(f)
    ensures var path, fp := ReadBack(f.path), ReadBack(Fingerprint(f.snippet));
      Reread(RecordOf(f)) ==
        if path.Some? && fp.Some? && ReadBack(Explanation(f)).Some?
        then Some(Entry(path, Some(f.family), SelectorOf(f).(fingerprint := fp.value), false))
        else None
  {
    NamesReadBack(f);
  }

  /** A backslash in the explanation is one in the fingerprint, which covers more of the snippet. */
  lemma ExplanationBackslash(f: Finding)
    requires Usable(f) && Plain(Fingerprint(f.snippet))
    ensures '"' !in Explanation(f) && '\\' !in Explanation(f)
  {
    var s := f.snippet;
    var short := if |s| < EXPLANATION_LIMIT then s else s[..EXPLANATION_LIMIT];
    var long := if |s| < FINGERPRINT_LIMIT then s else s[..FINGERPRINT_LIMIT];
    TrimFixed(PythonSpace, s);
    FingerprintMeaning(s);
    InkMember(long, '\\');
    InkMember(Fingerprint(s), '\\');
    assert '\\' !in long;
    assert short == long[..|short|];
  }

  /** A record is re-read as the entry meant exactly when its finding is writable, and a plain
      key is re-read as meant or not at all. */
  lemma RereadIffWritable(f: Finding)
    requires Usable(f)
    ensures Reread(RecordOf(f)) == Some(Proposal(f)) <==> Writable(f)
    ensures PlainKey(f) && Reread(RecordOf(f)).Some? ==> Writable(f)
  {
    RereadShape(f);
    ReadBackIffPlain(f.path);
    ReadBackIffPlain(Fingerprint(f.snippet));
    if PlainKey(f) {
      ExplanationBackslash(f);
      QuoteFreeReadsIffPlain(Explanation(f));
    }
  }

  /** What a text can come back as. */
  predicate ComesBack(written: string, read: string) {
    if Plain(written) then read == written else |read| < |written|
  }

  /** An entry that may have been read from the record of a finding. */
  predicate ReadFrom(f: Finding, e: Entry) {
    && Usable(f) && e.path.Some?
    && e == Entry(e.path, Some(f.family), SelectorOf(f).(fingerprint := e.selector.fingerprint), false)
    && ComesBack(f.path, e.path.value) && ComesBack(Fingerprint(f.snippet), e.selector.fingerprint)
  }

  lemma RereadReadFrom(f: Finding)
    requires Usable(f) && Reread(RecordOf(f)).Some?
    ensures ReadFrom(f, Reread(RecordOf(f)).value)
    ensures Coarse(f) <==> !Pinned(Reread(RecordOf(f)).value)
  {
    RereadShape(f);
    ReadBackIffPlain(f.path);
    ReadBackIffPlain(Fingerprint(f.snippet));
  }

  /** An entry with a fingerprint; without one it matches all of its family in its container. */
  predicate Pinned(e: Entry) { e.selector.fingerprint != "" }

  /** The fingerprint is lost in reading. */
  predicate Coarse(f: Finding) { ReadBack(Fingerprint(f.snippet)) == Some("") }

  predicate SameSpot(f: Finding, g: Finding) {
    f.path == g.path && f.family == g.family && f.container == g.container
  }

  lemma ReadMatch(f: Finding, e: Entry, g: Finding)
    requires ReadFrom(f, e) && Usable(g)
    ensures SelectorMatches(g, e) <==>
      && e.path == Some(g.path) && f.family == g.family && f.container == g.container
      && (Pinned(e) ==> e.selector.fingerprint == Fingerprint(g.snippet))
    ensures Pinned(e) ==> (SelectorMatches(g, e) <==> e == Proposal(g))
  {
  }

  // ---- the re-read file ---------------------------------------------------

  /** What a re-run loads of the proposals for the open findings. */
  function Reloaded(identity: Finding -> string, findings: seq<Finding>, entries: seq<Entry>): Option<seq<Entry>> {
    Reload(Records(Proposed(identity, findings, entries)))
  }

  /** What some findings' records may read as, entry by entry. */
  ghost predicate AllReadFrom(firsts: seq<Finding>, es: seq<Entry>) {
    |es| == |firsts| && forall i :: 0 <= i < |firsts| ==> ReadFrom(firsts[i], es[i])
  }

  predicate Readable(f: Finding) { Reread(RecordOf(f)).Some? }

  ghost predicate RereadAs(firsts: seq<Finding>, es: seq<Entry>) {
    |es| == |firsts| && forall i :: 0 <= i < |firsts| ==> Reread(RecordOf(firsts[i])) == Some(es[i])
  }

  lemma ReadingAt(firsts: seq<Finding>, i: nat)
    requires i < |firsts| && Usable(firsts[i])
    ensures Readings(Records(firsts))[i] == Reread(RecordOf(firsts[i]))
    ensures Readable(firsts[i]) ==> ReadFrom(firsts[i], Readings(Records(firsts))[i].value)
  {
    if Readable(firsts[i]) { RereadReadFrom(firsts[i]); }
  }

  /** The file loads exactly when each record reads. */
  lemma ReloadMeaning(firsts: seq<Finding>)
    requires forall i :: 0 <= i < |firsts| ==> Usable(firsts[i])
    ensures Reload(Records(firsts)).Some? <==> forall i :: 0 <= i < |firsts| ==> Readable(firsts[i])
    ensures Reload(Records(firsts)).Some? ==>
      AllReadFrom(firsts, Reload(Records(firsts)).value) && RereadAs(firsts, Reload(Records(firsts)).value)
  {
    var readings := Readings(Records(firsts));
    AllMeaning(readings);
    forall i | 0 <= i < |firsts|
      ensures readings[i] == Reread(RecordOf(firsts[i]))
      ensures readings[i].Some? ==> ReadFrom(firsts[i], readings[i].value)
    {
      ReadingAt(firsts, i);
    }
  }

  lemma ReloadedMeaning(identity: Finding -> string, findings: seq<Finding>, entries: seq<Entry>)
    requires Scanned(findings) && CollisionFree(identity, findings)
    ensures var firsts := Proposed(identity, findings, entries);
      && (Reloaded(identity, findings, entries).Some? <==> forall i :: 0 <= i < |firsts| ==> Readable(firsts[i]))
      && (Reloaded(identity, findings, entries).Some? ==>
            AllReadFrom(firsts, Reloaded(identity, findings, entries).value)
            && RereadAs(firsts, Reloaded(identity, findings, entries).value))
      && forall i :: 0 <= i < |firsts| ==> Usable(firsts[i])
  {
    var firsts := Proposed(identity, findings, entries);
    ProposedCoverOpen(identity, findings, entries);
    forall i | 0 <= i < |firsts|
      ensures Usable(firsts[i])
    {
      assert firsts[i] in firsts;
    }
    ReloadMeaning(firsts);
  }

  // ---- when nothing stays open --------------------------------------------

  /** The re-run loads the proposals and has nothing open. */
  ghost predicate Closes(identity: Finding -> string, findings: seq<Finding>, entries: seq<Entry>) {
    var es := Reloaded(identity, findings, entries);
    es.Some? && Unreceipted(findings, entries + es.value) == []
  }

  /** Some entry matches each of these findings. */
  predicate AllMatched(firsts: seq<Finding>, es: seq<Entry>) {
    forall i :: 0 <= i < |firsts| ==> FirstMatch(firsts[i], es).Some?
  }

  lemma SameKeyMatches(f: Finding, g: Finding, es: seq<Entry>)
    requires SameKey(f, g)
    ensures FirstMatch(f, es) == FirstMatch(g, es)
  {
    forall e | e in es
      ensures SelectorMatches(f, e) <==> SelectorMatches(g, e)
    {
    }
    if FirstMatch(f, es).Some? { assert es[FirstMatch(f, es).value] in es; }
    if FirstMatch(g, es).Some? { assert es[FirstMatch(g, es).value] in es; }
  }

  lemma MatchedReceipted(
    identity: Finding -> string, findings: seq<Finding>, entries: seq<Entry>, es: seq<Entry>, f: Finding)
    requires CollisionFree(identity, findings) && f in findings
    requires AllMatched(Proposed(identity, findings, entries), es)
    ensures FirstMatch(f, entries + es).Some?
  {
    FirstMatchAppend(f, entries, es);
    if FirstMatch(f, entries).None? {
      var g := OpenProposed(identity, findings, entries, f);
      var firsts := Proposed(identity, findings, entries);
      var i :| 0 <= i < |firsts| && firsts[i] == g;
      SameKeyMatches(f, g, es);
    }
  }

  lemma ReceiptedMatched(
    identity: Finding -> string, findings: seq<Finding>, entries: seq<Entry>, es: seq<Entry>, g: Finding)
    requires g in Proposed(identity, findings, entries) && Unreceipted(findings, entries + es) == []
    ensures FirstMatch(g, es).Some?
  {
    ProposedOpen(identity, findings, entries, g);
    AllReceipted(findings, entries + es);
    FirstMatchAppend(g, entries, es);
  }

  lemma ClosesMeaning(identity: Finding -> string, findings: seq<Finding>, entries: seq<Entry>, es: seq<Entry>)
    requires CollisionFree(identity, findings)
    ensures Unreceipted(findings, entries + es) == [] <==> AllMatched(Proposed(identity, findings, entries), es)
  {
    var firsts := Proposed(identity, findings, entries);
    if AllMatched(firsts, es) {
      forall f | f in findings
        ensures FirstMatch(f, entries + es).Some?
      {
        MatchedReceipted(identity, findings, entries, es, f);
      }
      AllReceipted(findings, entries + es);
    }
    if Unreceipted(findings, entries + es) == [] {
      forall i | 0 <= i < |firsts|
        ensures FirstMatch(firsts[i], es).Some?
      {
        ReceiptedMatched(identity, findings, entries, es, firsts[i]);
      }
    }
  }

  /** The re-read proposals receipt this finding: its record comes back as written, or it comes
      back at all and the record of a finding in the same container lost its fingerprint. */
  ghost predicate Answered(f: Finding, firsts: seq<Finding>) {
    Writable(f) || (Readable(f) && Plain(f.path) && exists g :: g in firsts && SameSpot(f, g) && Coarse(g))
  }

  lemma AnsweredMatched(firsts: seq<Finding>, es: seq<Entry>, i: nat)
    requires AllReadFrom(firsts, es) && RereadAs(firsts, es) && i < |firsts|
    requires forall k :: 0 <= k < |firsts| ==> Plain(firsts[k].path)
    requires Answered(firsts[i], firsts)
    ensures FirstMatch(firsts[i], es).Some?
  {
    var f := firsts[i];
    var j := i;
    if !Writable(f) {
      var g :| g in firsts && SameSpot(f, g) && Coarse(g);
      j :| 0 <= j < |firsts| && firsts[j] == g;
      RereadReadFrom(firsts[j]);
    }
    ReadMatch(firsts[j], es[j], f);
    assert es[j] in es;
  }

  lemma {:induction false} LongestPath(firsts: seq<Finding>) returns (bound: nat)
    ensures forall i :: 0 <= i < |firsts| ==> |firsts[i].path| <= bound
  {
    bound := 0;
    if firsts != [] {
      var n := |firsts| - 1;
      var rest := LongestPath(firsts[..n]);
      bound := if rest < |firsts[n].path| then |firsts[n].path| else rest;
      assert forall i :: 0 <= i < n ==> firsts[i] == firsts[..n][i];
    }
  }

  /** Every path is plain when every finding is matched: one that is not would have to be read
      from a longer one, and that from a longer one still. */
  lemma {:induction false} MatchedPathPlain(firsts: seq<Finding>, es: seq<Entry>, i: nat, bound: nat)
    requires AllReadFrom(firsts, es) && AllMatched(firsts, es) && i < |firsts|
    requires forall k :: 0 <= k < |firsts| ==> |firsts[k].path| <= bound
    ensures Plain(firsts[i].path)
    decreases bound - |firsts[i].path|
  {
    if !Plain(firsts[i].path) {
      var j := FirstMatch(firsts[i], es).value;
      assert ReadFrom(firsts[j], es[j]);
      if !Plain(firsts[j].path) {
        MatchedPathPlain(firsts, es, j, bound);
      }
    }
  }

  /** Likewise a fingerprint that is not plain is read from ever longer ones of the same spot,
      until an entry of that spot turns out to have none. */
  lemma {:induction false} MatchedFingerprint(firsts: seq<Finding>, es: seq<Entry>, i: nat) returns (j: nat)
    requires AllReadFrom(firsts, es) && AllMatched(firsts, es) && i < |firsts|
    requires forall k :: 0 <= k < |firsts| ==> Plain(firsts[k].path)
    ensures j < |firsts|
    ensures Plain(Fingerprint(firsts[i].snippet)) || (SameSpot(firsts[i], firsts[j]) && !Pinned(es[j]))
    decreases FINGERPRINT_LIMIT - |Fingerprint(firsts[i].snippet)|
  {
    j := i;
    FingerprintMeaning(firsts[i].snippet);
    if !Plain(Fingerprint(firsts[i].snippet)) {
      j := FirstMatch(firsts[i], es).value;
      FingerprintMeaning(firsts[j].snippet);
      assert ReadFrom(firsts[j], es[j]);
      ReadMatch(firsts[j], es[j], firsts[i]);
      if Pinned(es[j]) {
        j := MatchedFingerprint(firsts, es, j);
      }
    }
  }

  lemma MatchedAnswered(firsts: seq<Finding>, es: seq<Entry>, i: nat)
    requires AllReadFrom(firsts, es) && RereadAs(firsts, es) && AllMatched(firsts, es) && i < |firsts|
    requires forall k :: 0 <= k < |firsts| ==> Plain(firsts[k].path)
    ensures Answered(firsts[i], firsts)
  {
    var j := MatchedFingerprint(firsts, es, i);
    RereadIffWritable(firsts[i]);
    RereadReadFrom(firsts[j]);
    assert firsts[j] in firsts;
  }

  /** Every one of these findings is receipted by the re-read records. */
  ghost predicate AllAnswered(firsts: seq<Finding>) { forall f :: f in firsts ==> Answered(f, firsts) }

  lemma AnsweredReadable(f: Finding, firsts: seq<Finding>)
    requires Usable(f) && Answered(f, firsts)
    ensures Readable(f) && Plain(f.path)
  {
    RereadIffWritable(f);
  }

  lemma MatchedIffAnswered(firsts: seq<Finding>, es: seq<Entry>)
    requires AllReadFrom(firsts, es) && RereadAs(firsts, es)
    ensures AllMatched(firsts, es) <==> AllAnswered(firsts)
  {
    if AllMatched(firsts, es) {
      var bound := LongestPath(firsts);
      forall i | 0 <= i < |firsts|
        ensures Plain(firsts[i].path)
      {
        MatchedPathPlain(firsts, es, i, bound);
      }
      forall i | 0 <= i < |firsts|
        ensures Answered(firsts[i], firsts)
      {
        MatchedAnswered(firsts, es, i);
      }
    }
    if AllAnswered(firsts) {
      forall i | 0 <= i < |firsts|
        ensures Plain(firsts[i].path)
      {
        assert firsts[i] in firsts && ReadFrom(firsts[i], es[i]);
        AnsweredReadable(firsts[i], firsts);
      }
      forall i | 0 <= i < |firsts|
        ensures FirstMatch(firsts[i], es).Some?
      {
        assert firsts[i] in firsts;
        AnsweredMatched(firsts, es, i);
      }
    }
  }

  /** A re-run over the appended proposals has nothing open exactly when each proposed finding
      is writable or shares its container with one whose fingerprint is lost. */
  lemma ClosesIffAnswered(identity: Finding -> string, findings: seq<Finding>, entries: seq<Entry>)
    requires Scanned(findings) && CollisionFree(identity, findings)
    ensures Closes(identity, findings, entries) <==> AllAnswered(Proposed(identity, findings, entries))
  {
    var firsts := Proposed(identity, findings, entries);
    ReloadedMeaning(identity, findings, entries);
    if AllAnswered(firsts) {
      forall i | 0 <= i < |firsts|
        ensures Readable(firsts[i])
      {
        assert firsts[i] in firsts;
        AnsweredReadable(firsts[i], firsts);
      }
    }
    if Reloaded(identity, findings, entries).Some? {
      var es := Reloaded(identity, findings, entries).value;
      ClosesMeaning(identity, findings, entries, es);
      MatchedIffAnswered(firsts, es);
    }
  }

  /** Where no fingerprint is lost, exactly the writable findings are receipted. */
  lemma ClosesIffWritable(identity: Finding -> string, findings: seq<Finding>, entries: seq<Entry>)
    requires Scanned(findings) && CollisionFree(identity, findings)
    requires forall f :: f in Proposed(identity, findings, entries) ==> !Coarse(f)
    ensures Closes(identity, findings, entries) <==> AllWritable(Proposed(identity, findings, entries))
  {
    ClosesIffAnswered(identity, findings, entries);
  }

  // ---- when no proposal is stale ------------------------------------------

  predicate StaleProposal(findings: seq<Finding>, entries: seq<Entry>, es: seq<Entry>, k: nat) {
    Stale(findings, entries + es, |entries| + k)
  }

  /** The re-run loads the proposals, and none of them is stale. */
  ghost predicate NoneStale(identity: Finding -> string, findings: seq<Finding>, entries: seq<Entry>) {
    var es := Reloaded(identity, findings, entries);
    es.Some? && forall k: nat :: k < |es.value| ==> !StaleProposal(findings, entries, es.value, k)
  }

  ghost predicate ReachedFirst(firsts: seq<Finding>, es: seq<Entry>, k: nat) {
    exists i :: 0 <= i < |firsts| && FirstMatch(firsts[i], es) == Some(k)
  }

  ghost predicate AllReached(firsts: seq<Finding>, es: seq<Entry>) {
    forall k: nat :: k < |es| ==> ReachedFirst(firsts, es, k)
  }

  lemma StaleProposalMeaning(
    identity: Finding -> string, findings: seq<Finding>, entries: seq<Entry>, es: seq<Entry>, k: nat)
    requires CollisionFree(identity, findings)
    requires AllReadFrom(Proposed(identity, findings, entries), es) && k < |es|
    ensures StaleProposal(findings, entries, es, k) <==> !ReachedFirst(Proposed(identity, findings, entries), es, k)
  {
    var firsts := Proposed(identity, findings, entries);
    assert ReadFrom(firsts[k], es[k]) && (entries + es)[|entries| + k] == es[k];
    if ReachedFirst(firsts, es, k) {
      ReachedMatched(identity, findings, entries, es, k);
    }
    if Matched(findings, entries + es, |entries| + k) {
      MatchedReached(identity, findings, entries, es, k);
    }
  }

  lemma ReachedMatched(identity: Finding -> string, findings: seq<Finding>, entries: seq<Entry>, es: seq<Entry>, k: nat)
    requires ReachedFirst(Proposed(identity, findings, entries), es, k)
    ensures Matched(findings, entries + es, |entries| + k)
  {
    var firsts := Proposed(identity, findings, entries);
    var i :| 0 <= i < |firsts| && FirstMatch(firsts[i], es) == Some(k);
    ProposedOpen(identity, findings, entries, firsts[i]);
    OpenMatched(findings, entries, es, firsts[i], k);
  }

  lemma OpenMatched(findings: seq<Finding>, entries: seq<Entry>, es: seq<Entry>, f: Finding, k: nat)
    requires f in findings && FirstMatch(f, entries).None? && FirstMatch(f, es) == Some(k)
    ensures Matched(findings, entries + es, |entries| + k)
  {
    FirstMatchAppend(f, entries, es);
  }

  lemma MatchedReached(identity: Finding -> string, findings: seq<Finding>, entries: seq<Entry>, es: seq<Entry>, k: nat)
    requires CollisionFree(identity, findings) && Matched(findings, entries + es, |entries| + k)
    ensures ReachedFirst(Proposed(identity, findings, entries), es, k)
  {
    var f := Matcher(findings, entries, es, k);
    var g := OpenProposed(identity, findings, entries, f);
    SameKeyMatches(f, g, es);
    MemberReaches(Proposed(identity, findings, entries), es, g, k);
  }

  lemma MemberReaches(firsts: seq<Finding>, es: seq<Entry>, g: Finding, k: nat)
    requires g in firsts && FirstMatch(g, es) == Some(k)
    ensures ReachedFirst(firsts, es, k)
  {
    var i :| 0 <= i < |firsts| && firsts[i] == g;
  }

  lemma Matcher(findings: seq<Finding>, entries: seq<Entry>, es: seq<Entry>, k: nat) returns (f: Finding)
    requires Matched(findings, entries + es, |entries| + k)
    ensures f in findings && FirstMatch(f, entries).None? && FirstMatch(f, es) == Some(k)
  {
    f :| f in findings && FirstMatch(f, entries + es) == Some(|entries| + k);
    FirstMatchAppend(f, entries, es);
  }

  lemma NoneStaleMeaning(identity: Finding -> string, findings: seq<Finding>, entries: seq<Entry>)
    requires Scanned(findings) && CollisionFree(identity, findings)
    ensures NoneStale(identity, findings, entries) <==>
      (Reloaded(identity, findings, entries).Some?
       && AllReached(Proposed(identity, findings, entries), Reloaded(identity, findings, entries).value))
  {
    ReloadedMeaning(identity, findings, entries);
    if Reloaded(identity, findings, entries).Some? {
      var es := Reloaded(identity, findings, entries).value;
      forall k: nat | k < |es|
        ensures StaleProposal(findings, entries, es, k) <==> !ReachedFirst(Proposed(identity, findings, entries), es, k)
      {
        StaleProposalMeaning(identity, findings, entries, es, k);
      }
    }
  }

  // ---- as many findings as proposals --------------------------------------

  /** Findings that reach the first `n` entries, one for each. */
  lemma {:induction false} Reachers(firsts: seq<Finding>, es: seq<Entry>, n: nat) returns (reachers: set<nat>)
    requires AllReached(firsts, es) && n <= |es|
    ensures |reachers| == n
    ensures forall i :: i in reachers ==>
      i < |firsts| && FirstMatch(firsts[i], es).Some? && FirstMatch(firsts[i], es).value < n
  {
    reachers := {};
    if 0 < n {
      var fewer := Reachers(firsts, es, n - 1);
      assert ReachedFirst(firsts, es, n - 1);
      var i: nat :| i < |firsts| && FirstMatch(firsts[i], es) == Some(n - 1);
      reachers := fewer + {i};
    }
  }

  lemma {:induction false} BelowCounts(s: set<nat>, n: nat)
    requires forall i :: i in s ==> i < n
    ensures |s| <= n
  {
    if 0 < n {
      BelowCounts(s - {n - 1}, n - 1);
      assert s <= (s - {n - 1}) + {n - 1};
    } else {
      assert s == {};
    }
  }

  /** If every proposal is reached, every proposed finding is matched: each reaches one entry,
      and there are as many entries as findings. */
  lemma ReachedAllMatched(firsts: seq<Finding>, es: seq<Entry>)
    requires AllReached(firsts, es) && |es| == |firsts|
    ensures AllMatched(firsts, es)
  {
    var reachers := Reachers(firsts, es, |es|);
    forall i: nat | i < |firsts|
      ensures FirstMatch(firsts[i], es).Some?
    {
      if i !in reachers {
        BelowCounts(reachers + {i}, |firsts|);
      }
    }
  }

  /** Proposals none of which is stale leave nothing open. */
  lemma NoneStaleCloses(identity: Finding -> string, findings: seq<Finding>, entries: seq<Entry>)
    requires Scanned(findings) && CollisionFree(identity, findings) && NoneStale(identity, findings, entries)
    ensures Closes(identity, findings, entries)
  {
    NoneStaleMeaning(identity, findings, entries);
    ReloadedMeaning(identity, findings, entries);
    var firsts, es := Proposed(identity, findings, entries), Reloaded(identity, findings, entries).value;
    ReachedAllMatched(firsts, es);
    ClosesMeaning(identity, findings, entries, es);
  }

  // ---- exactly when none is stale -----------------------------------------

  predicate ReadsAs(f: Finding, e: Entry) { Reread(RecordOf(f)) == Some(e) }

  predicate ReadAlike(f: Finding, g: Finding) { Reread(RecordOf(f)) == Reread(RecordOf(g)) }

  /** A proposed finding whose entry is put to use: it is writable; or its fingerprint is lost and
      nothing of the same container is proposed after it; or it is read as the entry meant for
      another finding that is not writable. */
  ghost predicate Settled(firsts: seq<Finding>, i: nat)
    requires i < |firsts|
  {
    var f := firsts[i];
    Writable(f) ||
    (&& Readable(f) && Plain(f.path)
     && if Coarse(f) then forall j :: i < j < |firsts| ==> !SameSpot(f, firsts[j])
        else exists j :: 0 <= j < |firsts| && !Writable(firsts[j]) && ReadsAs(f, Proposal(firsts[j])))
  }

  /** All are, and no two that are not writable are read alike. */
  ghost predicate AllSettled(firsts: seq<Finding>) {
    && (forall i: nat :: i < |firsts| ==> Settled(firsts, i))
    && (forall i, j :: 0 <= i < j < |firsts| && !Writable(firsts[i]) && !Writable(firsts[j]) ==>
          !ReadAlike(firsts[i], firsts[j]))
  }

  /** The records, what they read as, and paths that all came through. */
  ghost predicate Loaded(firsts: seq<Finding>, es: seq<Entry>) {
    AllReadFrom(firsts, es) && RereadAs(firsts, es) && forall i :: 0 <= i < |firsts| ==> Plain(firsts[i].path)
  }

  lemma LoadedAt(firsts: seq<Finding>, es: seq<Entry>, i: nat)
    requires Loaded(firsts, es) && i < |firsts|
    ensures ReadFrom(firsts[i], es[i]) && ReadsAs(firsts[i], es[i]) && Readable(firsts[i]) && Plain(firsts[i].path)
    ensures Coarse(firsts[i]) <==> !Pinned(es[i])
    ensures if Writable(firsts[i]) then es[i] == Proposal(firsts[i]) && Pinned(es[i])
            else |es[i].selector.fingerprint| < |Fingerprint(firsts[i].snippet)|
  {
    RereadReadFrom(firsts[i]);
    RereadIffWritable(firsts[i]);
    FingerprintVisible(firsts[i].snippet);
  }

  lemma MatchesInSpot(firsts: seq<Finding>, es: seq<Entry>, t: nat, i: nat)
    requires Loaded(firsts, es) && t < |firsts| && i < |firsts|
    ensures SelectorMatches(firsts[t], es[i]) <==>
      SameSpot(firsts[i], firsts[t]) && (Pinned(es[i]) ==> es[i] == Proposal(firsts[t]))
  {
    LoadedAt(firsts, es, i);
    LoadedAt(firsts, es, t);
    ReadMatch(firsts[i], es[i], firsts[t]);
  }

  lemma Reacher(firsts: seq<Finding>, es: seq<Entry>, k: nat) returns (i: nat)
    requires k < |es| && ReachedFirst(firsts, es, k)
    ensures i < |firsts| && SelectorMatches(firsts[i], es[k])
    ensures forall j :: 0 <= j < k ==> !SelectorMatches(firsts[i], es[j])
  {
    i :| 0 <= i < |firsts| && FirstMatch(firsts[i], es) == Some(k);
  }

  lemma ReachedDiffer(firsts: seq<Finding>, es: seq<Entry>, i: nat, j: nat)
    requires AllReached(firsts, es) && i < j < |es|
    ensures es[i] != es[j]
  {
    assert ReachedFirst(firsts, es, j);
    var h := Reacher(firsts, es, j);
  }

  lemma ReachedSettled(firsts: seq<Finding>, es: seq<Entry>, i: nat)
    requires Loaded(firsts, es) && AllReached(firsts, es) && i < |firsts|
    ensures Settled(firsts, i)
  {
    LoadedAt(firsts, es, i);
    if Coarse(firsts[i]) {
      forall j | i < j < |firsts|
        ensures !SameSpot(firsts[i], firsts[j])
      {
        assert ReachedFirst(firsts, es, j);
        var h := Reacher(firsts, es, j);
        MatchesInSpot(firsts, es, h, i);
        MatchesInSpot(firsts, es, h, j);
      }
    } else if !Writable(firsts[i]) {
      assert ReachedFirst(firsts, es, i);
      var h := Reacher(firsts, es, i);
      MatchesInSpot(firsts, es, h, i);
      LoadedAt(firsts, es, h);
      if h < i { ReachedDiffer(firsts, es, h, i); } else if i < h { ReachedDiffer(firsts, es, i, h); }
      assert !Writable(firsts[h]) && ReadsAs(firsts[i], Proposal(firsts[h]));
    }
  }

  lemma ReachedAllSettled(firsts: seq<Finding>, es: seq<Entry>)
    requires Loaded(firsts, es) && AllReached(firsts, es)
    ensures AllSettled(firsts)
  {
    forall i: nat | i < |firsts|
      ensures Settled(firsts, i)
    {
      ReachedSettled(firsts, es, i);
    }
    forall i, j | 0 <= i < j < |firsts|
      ensures !ReadAlike(firsts[i], firsts[j])
    {
      LoadedAt(firsts, es, i);
      LoadedAt(firsts, es, j);
      ReachedDiffer(firsts, es, i, j);
    }
  }

  lemma KeyPlace(firsts: seq<Finding>, i: nat, j: nat)
    requires DistinctKeys(firsts) && i < |firsts| && j < |firsts| && Proposal(firsts[i]) == Proposal(firsts[j])
    ensures i == j
  {
    assert SameKey(firsts[i], firsts[j]) && SameKey(firsts[j], firsts[i]);
  }

  /** An entry before that of `k` matches a finding of the same container only if it is that
      finding's own, or was read from a longer one that is not writable either. */
  lemma EarlierMatch(firsts: seq<Finding>, es: seq<Entry>, t: nat, k: nat, i: nat)
    requires Loaded(firsts, es) && DistinctKeys(firsts) && AllSettled(firsts) && i < k < |firsts| && t < |firsts|
    requires SameSpot(firsts[t], firsts[k]) && SelectorMatches(firsts[t], es[i])
    ensures es[i] == Proposal(firsts[t]) && SameSpot(firsts[i], firsts[t])
    ensures if Writable(firsts[i]) then i == t
            else !Writable(firsts[t]) && |Fingerprint(firsts[t].snippet)| < |Fingerprint(firsts[i].snippet)|
  {
    LoadedAt(firsts, es, i);
    MatchesInSpot(firsts, es, t, i);
    assert Settled(firsts, i);
    assert SameSpot(firsts[i], firsts[k]);
    assert Pinned(es[i]);
    if Writable(firsts[i]) {
      KeyPlace(firsts, i, t);
    } else {
      var j :| 0 <= j < |firsts| && !Writable(firsts[j]) && ReadsAs(firsts[i], Proposal(firsts[j]));
      KeyPlace(firsts, j, t);
    }
  }

  /** The longest finding of a container that is not writable. */
  lemma {:induction false} Longest(firsts: seq<Finding>, k: nat, n: nat) returns (t: nat)
    requires k < |firsts| && n <= |firsts| && !Writable(firsts[k])
    ensures t < |firsts| && !Writable(firsts[t]) && SameSpot(firsts[t], firsts[k])
    ensures forall i :: 0 <= i < n && !Writable(firsts[i]) && SameSpot(firsts[i], firsts[k]) ==>
      |Fingerprint(firsts[i].snippet)| <= |Fingerprint(firsts[t].snippet)|
  {
    t := k;
    if 0 < n {
      t := Longest(firsts, k, n - 1);
      var f := firsts[n - 1];
      if !Writable(f) && SameSpot(f, firsts[k])
         && |Fingerprint(firsts[t].snippet)| < |Fingerprint(f.snippet)| {
        t := n - 1;
      }
    }
  }

  /** The finding that reaches the entry of `k`. */
  lemma SettledReacher(firsts: seq<Finding>, es: seq<Entry>, k: nat) returns (t: nat)
    requires Loaded(firsts, es) && DistinctKeys(firsts) && AllSettled(firsts) && k < |firsts|
    ensures t < |firsts| && SameSpot(firsts[t], firsts[k]) && SelectorMatches(firsts[t], es[k])
    ensures Writable(firsts[k]) ==> t == k
    ensures !Writable(firsts[k]) ==> !Writable(firsts[t])
    ensures !Writable(firsts[k]) && Coarse(firsts[k]) ==>
      forall i :: 0 <= i < |firsts| && !Writable(firsts[i]) && SameSpot(firsts[i], firsts[k]) ==>
        |Fingerprint(firsts[i].snippet)| <= |Fingerprint(firsts[t].snippet)|
  {
    t := k;
    LoadedAt(firsts, es, k);
    assert Settled(firsts, k);
    if !Writable(firsts[k]) {
      if Coarse(firsts[k]) {
        t := Longest(firsts, k, |firsts|);
      } else {
        t :| 0 <= t < |firsts| && !Writable(firsts[t]) && ReadsAs(firsts[k], Proposal(firsts[t]));
      }
    }
    MatchesInSpot(firsts, es, t, k);
  }

  lemma NoEarlierMatch(firsts: seq<Finding>, es: seq<Entry>, t: nat, k: nat, i: nat)
    requires Loaded(firsts, es) && DistinctKeys(firsts) && AllSettled(firsts) && i < k < |firsts| && t < |firsts|
    requires SameSpot(firsts[t], firsts[k]) && SelectorMatches(firsts[t], es[k])
    requires if Writable(firsts[k]) then t == k else !Writable(firsts[t])
    requires !Writable(firsts[k]) && Coarse(firsts[k]) && !Writable(firsts[i]) && SameSpot(firsts[i], firsts[k]) ==>
      |Fingerprint(firsts[i].snippet)| <= |Fingerprint(firsts[t].snippet)|
    ensures !SelectorMatches(firsts[t], es[i])
  {
    if SelectorMatches(firsts[t], es[i]) {
      EarlierMatch(firsts, es, t, k, i);
      assert !Writable(firsts[i]) && !Writable(firsts[k]) && !Coarse(firsts[k]);
      LoadedAt(firsts, es, k);
      MatchesInSpot(firsts, es, t, k);
      LoadedAt(firsts, es, i);
    }
  }

  lemma FirstIs(f: Finding, es: seq<Entry>, k: nat)
    requires k < |es| && SelectorMatches(f, es[k])
    requires forall i :: 0 <= i < k ==> !SelectorMatches(f, es[i])
    ensures FirstMatch(f, es) == Some(k)
  {
    assert es[k] in es;
  }

  lemma SettledReached(firsts: seq<Finding>, es: seq<Entry>, k: nat)
    requires Loaded(firsts, es) && DistinctKeys(firsts) && AllSettled(firsts) && k < |firsts|
    ensures ReachedFirst(firsts, es, k)
  {
    var t := SettledReacher(firsts, es, k);
    forall i | 0 <= i < k
      ensures !SelectorMatches(firsts[t], es[i])
    {
      NoEarlierMatch(firsts, es, t, k, i);
    }
    FirstIs(firsts[t], es, k);
  }

  /** None of the proposals is stale exactly when they are all settled. */
  lemma NoneStaleIffSettled(identity: Finding -> string, findings: seq<Finding>, entries: seq<Entry>)
    requires Scanned(findings) && CollisionFree(identity, findings)
    ensures NoneStale(identity, findings, entries) <==> AllSettled(Proposed(identity, findings, entries))
  {
    var firsts := Proposed(identity, findings, entries);
    NoneStaleMeaning(identity, findings, entries);
    ReloadedMeaning(identity, findings, entries);
    ProposedDistinct(identity, findings, entries);
    if NoneStale(identity, findings, entries) {
      var es := Reloaded(identity, findings, entries).value;
      ReachedLoaded(firsts, es);
      ReachedAllSettled(firsts, es);
    }
    if AllSettled(firsts) {
      SettledReadable(firsts);
      var es := Reloaded(identity, findings, entries).value;
      forall k: nat | k < |es|
        ensures ReachedFirst(firsts, es, k)
      {
        SettledReached(firsts, es, k);
      }
    }
  }

  lemma ReachedLoaded(firsts: seq<Finding>, es: seq<Entry>)
    requires AllReadFrom(firsts, es) && RereadAs(firsts, es) && AllReached(firsts, es)
    ensures Loaded(firsts, es)
  {
    ReachedAllMatched(firsts, es);
    var bound := LongestPath(firsts);
    forall i | 0 <= i < |firsts|
      ensures Plain(firsts[i].path)
    {
      MatchedPathPlain(firsts, es, i, bound);
    }
  }

  lemma SettledReadable(firsts: seq<Finding>)
    requires AllSettled(firsts) && forall i :: 0 <= i < |firsts| ==> Usable(firsts[i])
    ensures forall i :: 0 <= i < |firsts| ==> Readable(firsts[i]) && Plain(firsts[i].path)
  {
    forall i | 0 <= i < |firsts|
      ensures Readable(firsts[i]) && Plain(firsts[i].path)
    {
      assert Settled(firsts, i);
      RereadIffWritable(firsts[i]);
    }
  }

  // ---- when all are in use as written -------------------------------------

  /** Settled findings that keep their fingerprints are writable: one that is not reads as a
      shorter one, and that as a shorter one still. */
  lemma {:induction false} SettledWritable(firsts: seq<Finding>, i: nat)
    requires AllSettled(firsts) && i < |firsts|
    requires forall j :: 0 <= j < |firsts| ==> Usable(firsts[j]) && !Coarse(firsts[j])
    ensures Writable(firsts[i])
    decreases |firsts[i].path| + |Fingerprint(firsts[i].snippet)|
  {
    if !Writable(firsts[i]) {
      assert Settled(firsts, i);
      var j :| 0 <= j < |firsts| && !Writable(firsts[j]) && ReadsAs(firsts[i], Proposal(firsts[j]));
      RereadReadFrom(firsts[i]);
      RereadIffWritable(firsts[i]);
      SettledWritable(firsts, j);
    }
  }

  lemma WritableSettled(firsts: seq<Finding>)
    requires AllWritable(firsts) && forall i :: 0 <= i < |firsts| ==> Usable(firsts[i])
    ensures AllSettled(firsts) && forall i :: 0 <= i < |firsts| ==> !Coarse(firsts[i])
  {
    forall i: nat | i < |firsts|
      ensures Writable(firsts[i]) && Settled(firsts, i) && !Coarse(firsts[i])
    {
      assert firsts[i] in firsts;
      WritableKeepsFingerprint(firsts[i]);
    }
  }

  lemma WritableKeepsFingerprint(f: Finding)
    requires Usable(f) && Writable(f)
    ensures !Coarse(f)
  {
    ReadBackIffPlain(Fingerprint(f.snippet));
    FingerprintVisible(f.snippet);
  }

  /** No proposal is stale and none has lost its fingerprint exactly when the path, fingerprint
      and explanation of each proposed finding hold no quote, no backslash and no control
      character. */
  lemma AllInUseIffWritable(identity: Finding -> string, findings: seq<Finding>, entries: seq<Entry>)
    requires Scanned(findings) && CollisionFree(identity, findings)
    ensures NoneStale(identity, findings, entries)
            && (forall f :: f in Proposed(identity, findings, entries) ==> !Coarse(f))
        <==> AllWritable(Proposed(identity, findings, entries))
  {
    var firsts := Proposed(identity, findings, entries);
    NoneStaleIffSettled(identity, findings, entries);
    ReloadedMeaning(identity, findings, entries);
    assert forall i :: 0 <= i < |firsts| ==> firsts[i] in firsts;
    if AllSettled(firsts) && forall f :: f in firsts ==> !Coarse(f) {
      forall i: nat | i < |firsts|
        ensures Writable(firsts[i])
      {
        SettledWritable(firsts, i);
      }
    }
    if AllWritable(firsts) {
      WritableSettled(firsts);
    }
  }

  // ---- three inputs -------------------------------------------------------

  lemma SingleProposed(identity: Finding -> string, f: Finding)
    ensures Proposed(identity, [f], []) == [f]
  {
    assert [f] == [] + [f];
    SelectAppend([], f, [], false);
    FirstsAppend(identity, [], f);
  }

  /** A lone finding that does not read leaves no file to load. */
  lemma SingleReloaded(identity: Finding -> string, f: Finding)
    requires Usable(f)
    ensures Reloaded(identity, [f], []) ==
      if Readable(f) then Some([Reread(RecordOf(f)).value]) else None
  {
    SingleProposed(identity, f);
    SingleFile(f);
  }

  lemma SingleFile(f: Finding)
    ensures Reload(Records([f])) == if Readable(f) then Some([Reread(RecordOf(f)).value]) else None
  {
    var reading := Reread(RecordOf(f));
    assert Readings(Records([f])) == [reading];
    AllSingle(reading);
  }

  lemma AllSingle(x: Option<Entry>)
    ensures All([x]) == if x.Some? then Some([x.value]) else None
  {
    AllMeaning([x]);
    if x.Some? {
      assert All([x]).value == [x.value];
    }
  }

  lemma InnerQuote(before: string, after: string)
    requires Plain(before) && before != "" && !EndsLine(after + "\"")
    ensures ReadBack(before + ("\"" + after)).None?
  {
    var rest := "\"" + (after + "\"");
    assert Quoted(before + ("\"" + after))[1..] == before + rest;
    assert rest[1..] == after + "\"";
    assert before[0] in before;
    assert Quoted(before + ("\"" + after))[1] == before[0];
    PlainRead(before, rest);
  }

  lemma InnerNewline(before: string, after: string)
    requires Plain(before) && Plain(after) && before != ""
    ensures ReadBack(before + ("\\n" + after)) == Some(before + ("\n" + after))
  {
    var rest := "\\n" + (after + "\"");
    var v := before + ("\\n" + after);
    assert Quoted(v)[1..] == before + rest;
    assert before[0] in before;
    assert Quoted(v)[1] == before[0];
    assert rest[2..] == after + "\"";
    PlainRead(after, "\"");
    PlainRead(before, rest);
    assert before + (['\n'] + (after + "")) == before + ("\n" + after);
  }

  /** Visible characters only, so that a text of them is its own fingerprint. */
  predicate Visible(s: string) { forall c :: c in s ==> !PythonSpace(c) }

  lemma VisibleFingerprint(s: string)
    requires Visible(s) && |s| <= FINGERPRINT_LIMIT
    ensures Fingerprint(s) == s
  {
    assert forall i :: 0 <= i < |s| ==> s[i] in s;
    FingerprintFixed(s);
  }

  lemma VisibleParts(a: string, b: string)
    requires Visible(a) && Visible(b)
    ensures Visible(a + b)
  {
  }

  const EXPECT := "x.expect("
  const BOOM := "boom\");"

  /** `x.expect("boom");` has a quote that ends the fingerprint early, and the file no longer
      loads. */
  lemma QuoteRejectsFile(identity: Finding -> string, f: Finding)
    requires Usable(f) && f.snippet == EXPECT + ("\"" + BOOM)
    ensures Reloaded(identity, [f], []) == None
  {
    assert Visible(EXPECT);
    assert Visible("\"" + BOOM);
    VisibleParts(EXPECT, "\"" + BOOM);
    VisibleFingerprint(f.snippet);
    assert Plain(EXPECT);
    assert (BOOM + "\"")[0] == 'b';
    InnerQuote(EXPECT, BOOM);
    RereadShape(f);
    SingleReloaded(identity, f);
  }

  /** A lone finding that reads differently from what was written stays open, and its entry
      is stale. */
  lemma MisreadLeavesOpen(identity: Finding -> string, f: Finding)
    requires Usable(f) && Readable(f) && !Writable(f) && !Coarse(f)
    ensures var es := Reloaded(identity, [f], []);
      es.Some? && Unreceipted([f], es.value) == [f] && Stale([f], es.value, 0)
  {
    SingleReloaded(identity, f);
    var e := Reread(RecordOf(f)).value;
    RereadReadFrom(f);
    RereadIffWritable(f);
    ReadMatch(f, e, f);
    SelectAppend([], f, [e], false);
    assert [] + [f] == [f];
  }

  lemma QuoteFreeKept(s: string)
    requires '"' !in s
    ensures ReplaceQuotes(s) == s
  {
    assert forall i :: 0 <= i < |s| ==> s[i] in s;
  }

  /** A short snippet around an escaped newline reads as one around a newline. */
  lemma NewlineReads(f: Finding, before: string, after: string)
    requires Usable(f) && Plain(f.path) && f.snippet == before + ("\\n" + after)
    requires Visible(before) && Visible(after) && |f.snippet| < EXPLANATION_LIMIT
    requires Plain(before) && Plain(after) && before != ""
    ensures Readable(f) && !Writable(f) && !Coarse(f)
  {
    assert f.snippet[|before|] == '\\' && f.snippet[|before|] in f.snippet;
    VisibleParts(before, "\\n" + after);
    VisibleFingerprint(f.snippet);
    InnerNewline(before, after);
    NewlineExplained(f, before, after);
    ReadBackIffPlain(f.path);
    PartsReadable(f);
  }

  lemma PartsReadable(f: Finding)
    requires Usable(f)
    requires ReadBack(f.path).Some? && ReadBack(Fingerprint(f.snippet)).Some? && ReadBack(Explanation(f)).Some?
    ensures Readable(f)
  {
    RereadShape(f);
  }

  lemma NewlineExplained(f: Finding, before: string, after: string)
    requires f.snippet == before + ("\\n" + after) && |f.snippet| < EXPLANATION_LIMIT
    requires Plain(before) && Plain(after)
    ensures ReadBack(Explanation(f)).Some?
  {
    QuoteFreeKept(f.snippet);
    var lead := "TODO: ";
    assert Plain(lead);
    assert Explanation(f) == (lead + before) + ("\\n" + after);
    InnerNewline(lead + before, after);
  }

  const SPLIT := "s.split('"
  const NEXT := "').next().unwrap()"

  predicate Printable(s: string) { forall c :: c in s ==> '!' <= c <= '~' && c != '"' && c != '\\' }

  lemma PrintableIsPlain(s: string)
    requires Printable(s)
    ensures Plain(s) && Visible(s)
  {
  }

  /** The escape in `s.split('\n').next().unwrap()` is decoded: the file loads, the finding
      stays open and its entry is stale. */
  lemma BackslashLeavesOpen(identity: Finding -> string, f: Finding)
    requires Usable(f) && Plain(f.path) && f.snippet == SPLIT + ("\\n" + NEXT)
    ensures var es := Reloaded(identity, [f], []);
      es.Some? && Unreceipted([f], es.value) == [f] && Stale([f], es.value, 0)
  {
    assert Printable(SPLIT);
    assert Printable(NEXT);
    PrintableIsPlain(SPLIT);
    PrintableIsPlain(NEXT);
    NewlineReads(f, SPLIT, NEXT);
    MisreadLeavesOpen(identity, f);
  }

  const REMARK := "# x\".unwrap()"

  lemma SingleScanned(identity: Finding -> string, f: Finding)
    requires Usable(f) && '|' !in f.path
    ensures Scanned([f]) && CollisionFree(identity, [f])
  {
    assert SameKey(f, f);
    forall g, h | g in [f] && h in [f]
      ensures g == f && h == f
    {
    }
  }

  lemma LoneCoarseSettled(f: Finding)
    requires Plain(f.path) && Readable(f) && Coarse(f)
    ensures AllSettled([f])
  {
    assert Settled([f], 0);
  }

  /** A lone finding whose fingerprint is lost is matched by its entry all the same. */
  lemma LoneCoarseFits(identity: Finding -> string, f: Finding)
    requires Usable(f) && '|' !in f.path && Plain(f.path) && Readable(f) && Coarse(f)
    ensures Closes(identity, [f], []) && NoneStale(identity, [f], [])
  {
    SingleProposed(identity, f);
    SingleScanned(identity, f);
    LoneCoarseSettled(f);
    NoneStaleIffSettled(identity, [f], []);
    NoneStaleCloses(identity, [f], []);
  }

  /** In `" # x".unwrap()` the first quote ends the fingerprint and the rest reads as a comment:
      the entry loads without a fingerprint, and nothing stays open or stale although the
      finding is not writable. */
  lemma CommentDropsFingerprint(identity: Finding -> string, f: Finding)
    requires Usable(f) && Plain(f.path) && '|' !in f.path && f.snippet == "\"" + (" " + REMARK)
    ensures !Writable(f) && Coarse(f)
    ensures Closes(identity, [f], []) && NoneStale(identity, [f], [])
  {
    RemarkReads(f);
    LoneCoarseFits(identity, f);
  }

  lemma RemarkReads(f: Finding)
    requires Usable(f) && Plain(f.path) && f.snippet == "\"" + (" " + REMARK)
    ensures !Writable(f) && Coarse(f) && Readable(f)
  {
    RemarkFingerprint();
    RemarkLost();
    RemarkExplained(f);
    ReadBackIffPlain(Explanation(f));
    ReadBackIffPlain(f.path);
    PartsReadable(f);
  }

  lemma RemarkFingerprint()
    ensures Fingerprint("\"" + (" " + REMARK)) == "\"" + (" " + REMARK)
  {
    FingerprintFixed("\"" + (" " + REMARK));
  }

  lemma RemarkLost()
    ensures ReadBack("\"" + (" " + REMARK)) == Some("") && !Plain("\"" + (" " + REMARK))
  {
    var after := " " + REMARK;
    assert forall c :: c in REMARK + "\"" ==> !Control(c);
    CommentEnds(REMARK + "\"");
    assert after + "\"" == " " + (REMARK + "\"");
    EarlyQuote(after);
    assert ("\"" + after)[0] == '"' && ("\"" + after)[0] in "\"" + after;
  }

  lemma RemarkExplained(f: Finding)
    requires f.snippet == "\"" + (" " + REMARK)
    ensures Plain(Explanation(f))
  {
    assert forall c :: c in REMARK ==> c != '\\' && !Control(c);
    QuotesReplacedPlain(f.snippet);
    assert Plain("TODO: ");
  }

  lemma QuotesReplacedPlain(s: string)
    requires forall c :: c in s ==> c != '\\' && !Control(c)
    ensures Plain(ReplaceQuotes(s))
  {
    forall i | 0 <= i < |s|
      ensures PlainChar(ReplaceQuotes(s)[i])
    {
      assert s[i] in s;
    }
  }

  lemma EarlyQuote(after: string)
    requires after != "" && after[0] != '"' && EndsLine(after + "\"")
    ensures ReadBack("\"" + after) == Some("")
  {
    var rest := "\"" + (after + "\"");
    var text := Quoted("\"" + after);
    assert text == "\"" + rest && text[2] == after[0];
    assert !("\"\"\"" <= text);
    assert text[1..] == rest && rest[1..] == after + "\"";
    assert ReadBody(rest, false) == Some(Reading("", after + "\""));
  }

  lemma CommentEnds(comment: string)
    requires comment != "" && comment[0] == '#' && forall c :: c in comment ==> !Control(c)
    ensures EndsLine(" " + comment)
  {
    assert (" " + comment)[1..] == comment;
  }
}
