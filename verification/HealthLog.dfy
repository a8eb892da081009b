/** The diagnostic service's in-memory health log, halved when it overflows, and its recorder slot. */
module HealthLog {
  import opened Text

  const LIMIT := 1000
  const DROPPED := 500

  /** How many events the log holds after `n` were recorded. */
  function Kept(n: nat): nat {
    if n <= LIMIT then n else DROPPED + 1 + (n - (LIMIT + 1)) % DROPPED
  }

  /** One more event, and the halving that follows an overflow. */
  lemma KeptNext(n: nat)
    ensures Kept(0) == 0
    ensures Kept(n + 1) == if Kept(n) + 1 > 1000 then Kept(n) + 1 - 500 else Kept(n) + 1
    ensures Kept(n) <= n && Kept(n) <= 1000
  {
    if n > LIMIT {
      var m := n - (LIMIT + 1);
      assert (m + 1) % DROPPED == if m % DROPPED == DROPPED - 1 then 0 else m % DROPPED + 1;
    }
  }

  function Last<E>(s: seq<E>, n: nat): seq<E> {
    if n < |s| then s[|s| - n..] else s
  }

  /** The end of a sequence: as many elements as asked for, or all there are. */
  lemma LastIsEnd<E>(s: seq<E>, n: nat)
    ensures var t := Last(s, n);
      |t| == (if n < |s| then n else |s|) && t == s[|s| - |t|..]
  {
  }

  /** What the log holds of a history. */
  function Log<E>(history: seq<E>): seq<E> { Last(history, Kept(|history|)) }

  /** What a reader asking for `limit` events gets. */
  function Recent<E>(history: seq<E>, limit: nat): seq<E> { Last(Log(history), limit) }

  /** At least 501 events, or all there were, survive every halving. */
  lemma KeptFloor(n: nat)
    ensures Kept(n) >= if n < DROPPED + 1 then n else DROPPED + 1
  {
  }

  lemma RecentIsTrue<E>(history: seq<E>, limit: nat)
    requires limit <= DROPPED + 1
    ensures Recent(history, limit) == Last(history, limit)
  {
    KeptFloor(|history|);
    KeptNext(|history|);
  }

  /** A request is answered with the true last events, for every history, exactly when it
      asks for at most 501 of them. */
  lemma RecentIsTrueIff(limit: nat)
    ensures (forall history: seq<int> :: Recent(history, limit) == Last(history, limit)) <==> limit <= 501
  {
    if limit <= DROPPED + 1 {
      forall history: seq<int>
        ensures Recent(history, limit) == Last(history, limit)
      {
        RecentIsTrue(history, limit);
      }
    } else {
      var history := seq(LIMIT + 1, i => i);
      assert |Log(history)| == DROPPED + 1;
      assert |Last(history, limit)| > DROPPED + 1;
      assert Recent(history, limit) != Last(history, limit);
    }
  }

  datatype StartError = RecordingDisabled | AlreadyRecording | CreationFailed

  datatype StopOutcome = NotRecording | Saved(path: string) | FinalizeFailed

  /** The recorder is seen only through the events handed to it. */
  datatype Recorder<E> = Recorder(events: seq<E>)

  class DiagnosticService<E> {
    const enableRecording: bool
    var recorder: Option<Recorder<E>>
    var healthEvents: seq<E>
    ghost var history: seq<E>

    ghost predicate Valid()
      reads this
    {
      healthEvents == Log(history)
    }

    constructor (enableRecording: bool)
      ensures Valid() && history == [] && recorder == None
      ensures this.enableRecording == enableRecording
    {
      this.enableRecording := enableRecording;
      recorder, healthEvents, history := None, [], [];
    }

    method RecordHealthEvent(event: E)
      requires Valid()
      modifies this
      ensures Valid() && history == old(history) + [event]
      ensures recorder == match old(recorder)
        case None => None
        case Some(r) => Some(Recorder(r.events + [event]))
    {
      KeptNext(|history|);
      healthEvents := healthEvents + [event];
      if |healthEvents| > LIMIT {
        healthEvents := healthEvents[DROPPED..];
      }
      if recorder.Some? {
        recorder := Some(Recorder(recorder.value.events + [event]));
      }
      history := history + [event];
    }

    /** `created` is the outcome of building the recorder, `started` the event that marks it. */
    method StartRecording(created: bool, started: E) returns (error: Option<StartError>)
      requires Valid()
      modifies this
      ensures Valid()
      ensures error == if !enableRecording then Some(RecordingDisabled)
                       else if old(recorder).Some? then Some(AlreadyRecording)
                       else if !created then Some(CreationFailed)
                       else None
      ensures error.Some? ==> recorder == old(recorder) && history == old(history)
      ensures error.None? ==> recorder == Some(Recorder([started])) && history == old(history) + [started]
    {
      if !enableRecording {
        return Some(RecordingDisabled);
      }
      if recorder.Some? {
        return Some(AlreadyRecording);
      }
      if !created {
        return Some(CreationFailed);
      }
      recorder := Some(Recorder([]));
      RecordHealthEvent(started);
      assert [] + [started] == [started];
      return None;
    }

    /** `finalized` is the path the recorder's file gets, if finalizing it succeeds. The slot is
        emptied even when it fails. */
    method StopRecording(finalized: Option<string>) returns (outcome: StopOutcome)
      requires Valid()
      modifies this`recorder
      ensures Valid() && recorder == None
      ensures outcome == if old(recorder).None? then NotRecording
                         else if finalized.None? then FinalizeFailed
                         else Saved(finalized.value)
    {
      if recorder.None? {
        return NotRecording;
      }
      recorder := None;
      if finalized.None? {
        return FinalizeFailed;
      }
      return Saved(finalized.value);
    }

    method GetRecentHealthEvents(limit: nat) returns (events: seq<E>)
      requires Valid()
      ensures events == Recent(history, limit)
      ensures limit <= 501 ==> events == Last(history, limit)
    {
      var start := if |healthEvents| > limit then |healthEvents| - limit else 0;
      events := healthEvents[start..];
      if limit <= DROPPED + 1 { RecentIsTrue(history, limit); }
    }
  }
}
