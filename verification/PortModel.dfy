/** The virtual HID port as a state machine over atomic calls. Devices and handles are told
    apart by their connection flag, a token of any type. */
module PortModel {
  import opened Text
  import opened VirtualDevices

  const CHANNEL_CAPACITY := 100

  /** A device in the port's list, or a handle opened on one. */
  datatype Listed<F> = Listed(id: string, name: string, flag: F)

  datatype DeviceEvent = Connected(info: DeviceInfo) | Disconnected(info: DeviceInfo)

  /** The event channel: what waits in it, what the monitor has taken, whether a send failed,
      and the ids that were listed when it was made. */
  datatype Channel = Channel(base: set<string>, buffer: seq<DeviceEvent>, received: seq<DeviceEvent>, lost: bool)

  function TrySend(c: Channel, e: DeviceEvent): Channel {
    if |c.buffer| < CHANNEL_CAPACITY then c.(buffer := c.buffer + [e]) else c.(lost := true)
  }

  /** Sends to the monitor, if there is one. */
  function Sent(m: Option<Channel>, e: DeviceEvent): Option<Channel> {
    if m.None? then None else Some(TrySend(m.value, e))
  }

  /** A full channel is one in which 100 events wait. */
  lemma SendMeaning(c: Channel, e: DeviceEvent)
    ensures var after := TrySend(c, e);
      && after.base == c.base && after.received == c.received
      && (|c.buffer| < 100 ==> after.buffer == c.buffer + [e] && after.lost == c.lost)
      && (|c.buffer| >= 100 ==> after.buffer == c.buffer && after.lost)
  {
  }

  function Take(c: Channel): Channel {
    if c.buffer == [] then c
    else c.(buffer := c.buffer[1..], received := c.received + [c.buffer[0]])
  }

  datatype Port<F(==)> = Port(
    devices: seq<Listed<F>>, flags: map<F, bool>, handles: seq<Listed<F>>, monitor: Option<Channel>)
  {
    function Emit(e: DeviceEvent): Port<F> {
      this.(monitor := Sent(monitor, e))
    }

    predicate Alive(h: Listed<F>) {
      h.flag in flags && flags[h.flag]
    }
  }

  datatype Call<F> =
    | Add(device: Listed<F>)
    | Remove(id: string)
    | Open(id: string)
    | Monitor
    | Receive

  function Empty<F(==)>(): Port<F> { Port([], map[], [], None) }

  /** The first listed device with this id. */
  function First<F>(devices: seq<Listed<F>>, id: string): (r: Option<Listed<F>>)
    ensures r.None? <==> forall d :: d in devices ==> d.id != id
    ensures r.Some? ==> r.value in devices && r.value.id == id
  {
    if devices == [] then None
    else if devices[0].id == id then Some(devices[0])
    else
      assert devices == [devices[0]] + devices[1..];
      First(devices[1..], id)
  }

  function Without<F>(devices: seq<Listed<F>>, id: string): (r: seq<Listed<F>>)
  {
    if devices == [] then []
    else if devices[0].id == id then Without(devices[1..], id)
    else [devices[0]] + Without(devices[1..], id)
  }

  function Ids<F(==)>(devices: seq<Listed<F>>): set<string> {
    set d | d in devices :: d.id
  }

  function Step<F(==)>(s: Port<F>, c: Call<F>): Port<F> {
    match c
    case Add(d) =>
      s.(devices := s.devices + [d], flags := s.flags[d.flag := true])
       .Emit(Connected(DeviceInfo(d.id, d.name, true)))
    case Remove(id) =>
      (match First(s.devices, id)
       case None => s
       case Some(d) =>
         s.(devices := Without(s.devices, id), flags := s.flags[d.flag := false])
          .Emit(Disconnected(DeviceInfo(d.id, d.name, false))))
    case Open(id) =>
      (match First(s.devices, id)
       case None => s
       case Some(d) => s.(handles := s.handles + [d]))
    case Monitor => s.(monitor := Some(Channel(Ids(s.devices), [], [], false)))
    case Receive => if s.monitor.None? then s else s.(monitor := Some(Take(s.monitor.value)))
  }

  function Run<F(==)>(s: Port<F>, calls: seq<Call<F>>): Port<F> {
    if calls == [] then s else Step(Run(s, calls[..|calls| - 1]), calls[|calls| - 1])
  }

  /** Every added device brings its own flag: it was built by `new` and moved into the port. */
  ghost predicate OwnFlags<F>(s: Port<F>, calls: seq<Call<F>>) {
    && (forall i :: 0 <= i < |calls| && calls[i].Add? ==> calls[i].device.flag !in s.flags)
    && (forall i, j :: 0 <= i < j < |calls| && calls[i].Add? && calls[j].Add? ==>
          calls[i].device.flag != calls[j].device.flag)
  }

  // ---- what is listed -----------------------------------------------------

  /** The device a call adds, unless its id is removed later. */
  function Lasting<F(==)>(c: Call<F>, later: seq<Call<F>>): seq<Listed<F>> {
    if c.Add? && Remove(c.device.id) !in later then [c.device] else []
  }

  /** The devices added and not removed afterwards, in the order they were added. */
  function Survivors<F(==)>(calls: seq<Call<F>>): seq<Listed<F>> {
    if calls == [] then [] else Lasting(calls[0], calls[1..]) + Survivors(calls[1..])
  }

  lemma LastingNext<F>(h: Call<F>, later: seq<Call<F>>, c: Call<F>)
    ensures Lasting(h, later + [c]) == if c.Remove? then Without(Lasting(h, later), c.id) else Lasting(h, later)
  {
    assert forall d :: d in later + [c] <==> d in later || d == c;
  }

  lemma {:induction false} WithoutConcat<F>(a: seq<Listed<F>>, b: seq<Listed<F>>, id: string)
    ensures Without(a + b, id) == Without(a, id) + Without(b, id)
  {
    if a == [] {
      assert a + b == b;
    } else {
      assert (a + b)[1..] == a[1..] + b;
      WithoutConcat(a[1..], b, id);
    }
  }

  lemma {:induction false} SurvivorsAppend<F>(calls: seq<Call<F>>, c: Call<F>)
    ensures Survivors(calls + [c]) ==
      if c.Add? then Survivors(calls) + [c.device]
      else if c.Remove? then Without(Survivors(calls), c.id)
      else Survivors(calls)
  {
    if calls == [] {
      assert calls + [c] == [c] && [c][1..] == [];
    } else {
      var head, rest := calls[0], calls[1..];
      assert (calls + [c])[0] == head && (calls + [c])[1..] == rest + [c];
      SurvivorsAppend(rest, c);
      LastingNext(head, rest, c);
      WithoutConcat(Lasting(head, rest), Survivors(rest), if c.Remove? then c.id else "");
    }
  }

  /** After any run from an empty port the list holds exactly those, in that order. */
  lemma {:induction false} ListIsSurvivors<F>(calls: seq<Call<F>>)
    ensures Run(Empty<F>(), calls).devices == Survivors(calls)
  {
    if calls != [] {
      var front, last := calls[..|calls| - 1], calls[|calls| - 1];
      assert calls == front + [last];
      ListIsSurvivors(front);
      SurvivorsAppend(front, last);
      if last.Remove? && First(Survivors(front), last.id).None? {
        NothingWithout(Survivors(front), last.id);
      }
    }
  }

  lemma {:induction false} NothingWithout<F>(devices: seq<Listed<F>>, id: string)
    requires First(devices, id).None?
    ensures Without(devices, id) == devices
  {
    if devices != [] {
      NothingWithout(devices[1..], id);
    }
  }

  /** What one call announces and opens: an added device as connected; the first of a removed id
      as disconnected; an open adds a handle on the first of the id, if there is one. */
  lemma StepAnnounces<F>(s: Port<F>, d: Listed<F>, id: string)
    ensures Step(s, Add(d)).monitor == Sent(s.monitor, Connected(DeviceInfo(d.id, d.name, true)))
    ensures forall i: nat :: FirstIndex(s.devices, id, i) ==>
      && Step(s, Remove(id)).monitor
         == Sent(s.monitor, Disconnected(DeviceInfo(id, s.devices[i].name, false)))
      && Step(s, Open(id)).handles == s.handles + [s.devices[i]]
    ensures (forall e :: e in s.devices ==> e.id != id) ==> Step(s, Remove(id)) == s && Step(s, Open(id)) == s
  {
    forall i: nat | FirstIndex(s.devices, id, i)
      ensures First(s.devices, id) == Some(s.devices[i])
    {
      FirstAt(s.devices, id, i);
    }
  }

  predicate FirstIndex<F>(devices: seq<Listed<F>>, id: string, i: nat) {
    i < |devices| && devices[i].id == id && forall k :: 0 <= k < i ==> devices[k].id != id
  }

  // ---- handles ------------------------------------------------------------

  ghost predicate Unlisted<F>(s: Port<F>, flag: F) {
    forall d :: d in s.devices ==> d.flag != flag
  }

  /** A handle that still works: the first device of its id is the one it was opened on. */
  ghost predicate Attached<F>(s: Port<F>, h: Listed<F>) {
    First(s.devices, h.id) == Some(h)
  }

  /** Listed devices are connected and own distinct flags; a handle is attached, or it is
      switched off and nothing listed shares its flag. */
  ghost predicate Coherent<F>(s: Port<F>) {
    && (forall d :: d in s.devices ==> s.Alive(d))
    && DistinctFlags(s.devices)
    && (forall h :: h in s.handles ==> h.flag in s.flags && (Attached(s, h) || (!s.Alive(h) && Unlisted(s, h.flag))))
  }

  lemma {:induction false} WithoutMembers<F>(devices: seq<Listed<F>>, id: string)
    ensures forall d :: d in Without(devices, id) <==> d in devices && d.id != id
  {
    if devices != [] {
      WithoutMembers(devices[1..], id);
      assert devices == [devices[0]] + devices[1..];
    }
  }

  lemma {:induction false} WithoutAppend<F>(devices: seq<Listed<F>>, d: Listed<F>, id: string)
    ensures Without(devices + [d], id) == Without(devices, id) + (if d.id == id then [] else [d])
  {
    if devices != [] {
      assert (devices + [d])[1..] == devices[1..] + [d];
      WithoutAppend(devices[1..], d, id);
    }
  }

  lemma {:induction false} FirstAt<F>(devices: seq<Listed<F>>, id: string, i: nat)
    requires i < |devices| && devices[i].id == id
    requires forall k :: 0 <= k < i ==> devices[k].id != id
    ensures First(devices, id) == Some(devices[i])
  {
    if 0 < i {
      FirstAt(devices[1..], id, i - 1);
    }
  }

  lemma WithoutMember<F>(devices: seq<Listed<F>>, id: string, d: Listed<F>)
    ensures d in Without(devices, id) <==> d in devices && d.id != id
  {
    WithoutMembers(devices, id);
  }

  /** The rest of the list keeps its order: the first of another id stays the first. */
  lemma {:induction false} WithoutFirst<F>(devices: seq<Listed<F>>, id: string, other: string)
    requires other != id
    ensures First(Without(devices, id), other) == First(devices, other)
  {
    if devices != [] {
      WithoutFirst(devices[1..], id, other);
      if devices[0].id != id {
        assert ([devices[0]] + Without(devices[1..], id))[1..] == Without(devices[1..], id);
      }
    }
  }

  lemma {:induction false} FirstAppend<F>(devices: seq<Listed<F>>, d: Listed<F>, id: string)
    ensures First(devices + [d], id) ==
      if First(devices, id).Some? then First(devices, id) else if d.id == id then Some(d) else None
  {
    if devices != [] {
      assert (devices + [d])[1..] == devices[1..] + [d];
      FirstAppend(devices[1..], d, id);
    }
  }

  ghost predicate DistinctFlags<F>(devices: seq<Listed<F>>) {
    forall i, j :: 0 <= i < j < |devices| ==> devices[i].flag != devices[j].flag
  }

  lemma {:induction false} WithoutDistinct<F>(devices: seq<Listed<F>>, id: string)
    requires DistinctFlags(devices)
    ensures DistinctFlags(Without(devices, id))
  {
    if devices != [] {
      WithoutDistinct(devices[1..], id);
      WithoutMembers(devices[1..], id);
      var rest := Without(devices[1..], id);
      forall i | 0 <= i < |rest|
        ensures rest[i].flag != devices[0].flag
      {
        assert rest[i] in rest;
      }
    }
  }

  lemma SameFlagSameDevice<F>(devices: seq<Listed<F>>, d: Listed<F>, e: Listed<F>)
    requires DistinctFlags(devices) && d in devices && e in devices && d.flag == e.flag
    ensures d == e
  {
  }

  /** One call keeps the port coherent and never switches a dead handle back on. */
  lemma StepCoherent<F>(s: Port<F>, c: Call<F>)
    requires Coherent(s) && (c.Add? ==> c.device.flag !in s.flags)
    ensures Coherent(Step(s, c))
    ensures forall h :: h in s.handles ==> h in Step(s, c).handles
    ensures forall h :: h in s.handles ==>
              (Step(s, c).Alive(h) <==> s.Alive(h) && c != Remove(h.id))
  {
    match c
    case Add(d) => AddCoherent(s, d);
    case Remove(id) => if First(s.devices, id).Some? { RemoveCoherent(s, id); } else { NothingToRemove(s, id); }
    case Open(id) => if First(s.devices, id).Some? { OpenCoherent(s, id); }
    case Monitor =>
    case Receive =>
  }

  lemma NothingToRemove<F>(s: Port<F>, id: string)
    requires Coherent(s) && First(s.devices, id).None?
    ensures forall h :: h in s.handles && h.id == id ==> !s.Alive(h)
  {
  }

  lemma AddCoherent<F>(s: Port<F>, d: Listed<F>)
    requires Coherent(s) && d.flag !in s.flags
    ensures Coherent(Step(s, Add(d)))
    ensures forall h :: h in s.handles ==> (Step(s, Add(d)).Alive(h) <==> s.Alive(h))
  {
    var t := Step(s, Add(d));
    assert t.devices == s.devices + [d] && t.flags == s.flags[d.flag := true] && t.handles == s.handles;
    forall i | 0 <= i < |s.devices|
      ensures s.devices[i].flag in s.flags
    {
      assert s.devices[i] in s.devices && s.Alive(s.devices[i]);
    }
    forall h | h in s.handles
      ensures h.flag in t.flags && (Attached(t, h) || (!t.Alive(h) && Unlisted(t, h.flag)))
    {
      FirstAppend(s.devices, d, h.id);
    }
  }

  lemma RemoveCoherent<F>(s: Port<F>, id: string)
    requires Coherent(s) && First(s.devices, id).Some?
    ensures Coherent(Step(s, Remove(id)))
    ensures forall h :: h in s.handles ==> (Step(s, Remove(id)).Alive(h) <==> s.Alive(h) && h.id != id)
  {
    var t, gone := Step(s, Remove(id)), First(s.devices, id).value;
    assert t.devices == Without(s.devices, id) && t.flags == s.flags[gone.flag := false] && t.handles == s.handles;
    WithoutMembers(s.devices, id);
    WithoutDistinct(s.devices, id);
    forall d | d in t.devices
      ensures t.Alive(d) && d.flag != gone.flag
    {
      WithoutMember(s.devices, id, d);
      assert d in s.devices;
      assert s.Alive(d);
      if d.flag == gone.flag { SameFlagSameDevice(s.devices, d, gone); }
    }
    forall h | h in s.handles
      ensures h.flag in t.flags && (Attached(t, h) || (!t.Alive(h) && Unlisted(t, h.flag)))
      ensures t.Alive(h) <==> s.Alive(h) && h.id != id
    {
      if h.id != id && Attached(s, h) {
        WithoutFirst(s.devices, id, h.id);
        assert h in s.devices && h in t.devices;
      }
    }
  }

  lemma OpenCoherent<F>(s: Port<F>, id: string)
    requires Coherent(s) && First(s.devices, id).Some?
    ensures Coherent(Step(s, Open(id)))
  {
    var d := First(s.devices, id).value;
    assert d in s.devices && s.Alive(d) && Attached(s, d);
  }

  lemma OwnFlagsPrefix<F>(s: Port<F>, calls: seq<Call<F>>)
    requires calls != [] && OwnFlags(s, calls)
    ensures OwnFlags(s, calls[..|calls| - 1])
  {
  }

  lemma {:induction false} FlagsComeFromAdds<F>(s: Port<F>, calls: seq<Call<F>>, flag: F)
    requires flag in Run(s, calls).flags
    requires forall d :: d in s.devices ==> d.flag in s.flags
    ensures flag in s.flags || exists i :: 0 <= i < |calls| && calls[i].Add? && calls[i].device.flag == flag
    ensures forall d :: d in Run(s, calls).devices ==> d.flag in Run(s, calls).flags
  {
    if calls != [] {
      var front := calls[..|calls| - 1];
      var t := Run(s, front);
      ListedFlagsKnown(s, front);
      if flag in t.flags {
        FlagsComeFromAdds(s, front, flag);
      }
      ListedFlagsKnown(s, calls);
    }
  }

  lemma {:induction false} ListedFlagsKnown<F>(s: Port<F>, calls: seq<Call<F>>)
    requires forall d :: d in s.devices ==> d.flag in s.flags
    ensures forall d :: d in Run(s, calls).devices ==> d.flag in Run(s, calls).flags
  {
    if calls != [] {
      ListedFlagsKnown(s, calls[..|calls| - 1]);
      var t, c := Run(s, calls[..|calls| - 1]), calls[|calls| - 1];
      match c {
        case Add(d) => assert Step(t, c).devices == t.devices + [d];
        case Remove(id) =>
          WithoutMembers(t.devices, id);
          forall d | d in Step(t, c).devices
            ensures d.flag in Step(t, c).flags
          {
            WithoutMember(t.devices, id, d);
            assert d in t.devices ==> d.flag in t.flags;
          }
        case _ =>
      }
    }
  }

  lemma NextFlagIsNew<F>(s: Port<F>, calls: seq<Call<F>>)
    requires Coherent(s) && calls != [] && OwnFlags(s, calls) && calls[|calls| - 1].Add?
    ensures calls[|calls| - 1].device.flag !in Run(s, calls[..|calls| - 1]).flags
  {
    var front, flag := calls[..|calls| - 1], calls[|calls| - 1].device.flag;
    if flag in Run(s, front).flags {
      FlagsComeFromAdds(s, front, flag);
    }
  }

  /** In every run each handle is attached to the first device of its id, or dead for good:
      it is alive afterwards exactly when it was alive before and its id was not removed. */
  lemma {:induction false} HandlesDieOnlyByRemoval<F>(s: Port<F>, calls: seq<Call<F>>)
    requires Coherent(s) && OwnFlags(s, calls)
    ensures Coherent(Run(s, calls))
    ensures forall h :: h in s.handles ==> h in Run(s, calls).handles
    ensures forall h :: h in s.handles ==>
              (Run(s, calls).Alive(h) <==> s.Alive(h) && Remove(h.id) !in calls)
  {
    if calls != [] {
      var front, last := calls[..|calls| - 1], calls[|calls| - 1];
      assert calls == front + [last];
      OwnFlagsPrefix(s, calls);
      HandlesDieOnlyByRemoval(s, front);
      if last.Add? { NextFlagIsNew(s, calls); }
      StepCoherent(Run(s, front), last);
    }
  }

  lemma EmptyCoherent<F>()
    ensures Coherent(Empty<F>())
  {
  }

  /** A freshly opened handle works and stays usable until its id is removed. */
  lemma OpenedHandleLife<F>(s: Port<F>, id: string, later: seq<Call<F>>)
    requires Coherent(s) && OwnFlags(Step(s, Open(id)), later) && First(s.devices, id).Some?
    ensures var h := First(s.devices, id).value;
      && h in Step(s, Open(id)).handles && s.Alive(h)
      && (Run(Step(s, Open(id)), later).Alive(h) <==> Remove(id) !in later)
  {
    var h := First(s.devices, id).value;
    assert h in s.devices;
    OpenCoherent(s, id);
    HandlesDieOnlyByRemoval(Step(s, Open(id)), later);
  }

  // ---- the event stream ---------------------------------------------------

  function Apply(ids: set<string>, e: DeviceEvent): set<string> {
    if e.Connected? then ids + {e.info.id} else ids - {e.info.id}
  }

  /** The ids a monitor reconstructs from the events it has seen. */
  function Replay(base: set<string>, events: seq<DeviceEvent>): set<string> {
    if events == [] then base
    else Apply(Replay(base, events[..|events| - 1]), events[|events| - 1])
  }

  lemma ReplayAppend(base: set<string>, events: seq<DeviceEvent>, e: DeviceEvent)
    ensures Replay(base, events + [e]) == Apply(Replay(base, events), e)
  {
    assert (events + [e])[..|events + [e]| - 1] == events;
  }

  /** As long as no send has failed, the taken and waiting events rebuild the listed ids. */
  ghost predicate Synchronised<F>(s: Port<F>) {
    s.monitor.Some? && !s.monitor.value.lost ==>
      Replay(s.monitor.value.base, s.monitor.value.received + s.monitor.value.buffer) == Ids(s.devices)
  }

  lemma StepSynchronised<F>(s: Port<F>, c: Call<F>)
    requires Synchronised(s)
    ensures Synchronised(Step(s, c))
  {
    if s.monitor.Some? && !s.monitor.value.lost {
      var m := s.monitor.value;
      var seen := m.received + m.buffer;
      match c {
        case Add(d) =>
          var e := Connected(DeviceInfo(d.id, d.name, true));
          assert m.received + (m.buffer + [e]) == seen + [e];
          ReplayAppend(m.base, seen, e);
          assert Ids(s.devices + [d]) == Ids(s.devices) + {d.id};
        case Remove(id) =>
          if First(s.devices, id).Some? {
            var d := First(s.devices, id).value;
            var e := Disconnected(DeviceInfo(d.id, d.name, false));
            assert m.received + (m.buffer + [e]) == seen + [e];
            ReplayAppend(m.base, seen, e);
            WithoutMembers(s.devices, id);
            assert Ids(Without(s.devices, id)) == Ids(s.devices) - {id};
          }
        case Open(id) =>
        case Monitor =>
        case Receive =>
          if m.buffer != [] {
            assert m.received + [m.buffer[0]] + m.buffer[1..] == seen;
          }
      }
    }
  }

  /** In every run the monitor's view, once it has drained the channel, is the port's list. */
  lemma {:induction false} MonitorTracksDevices<F>(s: Port<F>, calls: seq<Call<F>>)
    requires Synchronised(s)
    ensures Synchronised(Run(s, calls))
  {
    if calls != [] {
      MonitorTracksDevices(s, calls[..|calls| - 1]);
      StepSynchronised(Run(s, calls[..|calls| - 1]), calls[|calls| - 1]);
    }
  }

  lemma DrainedMonitorSeesList<F>(calls: seq<Call<F>>)
    ensures var s := Run(Empty<F>(), calls);
      s.monitor.Some? && !s.monitor.value.lost && s.monitor.value.buffer == [] ==>
        Replay(s.monitor.value.base, s.monitor.value.received) == Ids(s.devices)
  {
    MonitorTracksDevices(Empty<F>(), calls);
    var s := Run(Empty<F>(), calls);
    if s.monitor.Some? {
      assert s.monitor.value.received + [] == s.monitor.value.received;
    }
  }

  /** Calls that may send an event. */
  function Sends<F>(calls: seq<Call<F>>): nat {
    if calls == [] then 0
    else Sends(calls[..|calls| - 1]) + (if calls[|calls| - 1].Add? || calls[|calls| - 1].Remove? then 1 else 0)
  }

  /** Nothing is lost within the channel's capacity, even if the monitor takes nothing. */
  lemma {:induction false} NoLossWithinCapacity<F>(s: Port<F>, calls: seq<Call<F>>)
    requires s.monitor.Some? && s.monitor.value.buffer == [] && !s.monitor.value.lost
    requires Sends(calls) <= 100
    ensures var t := Run(s, calls);
      t.monitor.Some? && !t.monitor.value.lost && |t.monitor.value.buffer| <= Sends(calls)
  {
    if calls != [] {
      NoLossWithinCapacity(s, calls[..|calls| - 1]);
    }
  }

  // ---- when events are lost -----------------------------------------------

  /** Whether a call announces something. */
  predicate Emits<F>(s: Port<F>, c: Call<F>) {
    c.Add? || (c.Remove? && First(s.devices, c.id).Some?)
  }

  /** Announcements made minus receives called for. */
  function Surplus<F>(s: Port<F>, calls: seq<Call<F>>): int {
    if calls == [] then 0
    else
      var front, last := calls[..|calls| - 1], calls[|calls| - 1];
      Surplus(s, front) + (if Emits(Run(s, front), last) then 1 else if last.Receive? then -1 else 0)
  }

  /** Between two points of the run announcements outnumber receives by more than the capacity. */
  ghost predicate Burst<F>(s: Port<F>, calls: seq<Call<F>>, i: nat, j: nat) {
    i <= j <= |calls| && Surplus(s, calls[..j]) - Surplus(s, calls[..i]) > 100
  }

  /** A monitor that has just been made. */
  predicate Fresh<F>(s: Port<F>) {
    s.monitor.Some? && s.monitor.value.buffer == [] && !s.monitor.value.lost
  }

  /** What one call does to the channel. */
  lemma StepChannel<F>(s: Port<F>, c: Call<F>)
    requires s.monitor.Some? && !c.Monitor? && |s.monitor.value.buffer| <= CHANNEL_CAPACITY
    ensures Step(s, c).monitor.Some?
    ensures var m, after := s.monitor.value, Step(s, c).monitor.value;
      && after.lost == (m.lost || (Emits(s, c) && |m.buffer| == CHANNEL_CAPACITY))
      && |after.buffer| ==
           if Emits(s, c) then (if |m.buffer| < CHANNEL_CAPACITY then |m.buffer| + 1 else |m.buffer|)
           else if c.Receive? && m.buffer != [] then |m.buffer| - 1
           else |m.buffer|
  {
  }

  /** Without a new monitor the channel stays, within its capacity. */
  lemma {:induction false} ChannelStays<F>(s: Port<F>, calls: seq<Call<F>>)
    requires Fresh(s) && Monitor !in calls
    ensures Run(s, calls).monitor.Some? && |Run(s, calls).monitor.value.buffer| <= CHANNEL_CAPACITY
  {
    if calls != [] {
      var front := calls[..|calls| - 1];
      ChannelStays(s, front);
      StepChannel(Run(s, front), calls[|calls| - 1]);
    }
  }

  /** Until something is lost, what waits is at least the surplus of any end of the run ... */
  lemma {:induction false} BacklogBoundsSurplus<F>(s: Port<F>, calls: seq<Call<F>>, k: nat)
    requires Fresh(s) && Monitor !in calls && k <= |calls|
    ensures var r := Run(s, calls);
      r.monitor.Some? &&
      (!r.monitor.value.lost ==> Surplus(s, calls) - Surplus(s, calls[..k]) <= |r.monitor.value.buffer|)
    decreases |calls|
  {
    ChannelStays(s, calls);
    if k == |calls| {
      assert calls[..k] == calls;
    } else {
      var front := calls[..|calls| - 1];
      assert calls[..k] == front[..k];
      ChannelStays(s, front);
      BacklogBoundsSurplus(s, front, k);
      StepChannel(Run(s, front), calls[|calls| - 1]);
    }
  }

  /** ... and is the surplus of one of them. */
  lemma {:induction false} BacklogIsSurplus<F>(s: Port<F>, calls: seq<Call<F>>) returns (k: nat)
    requires Fresh(s) && Monitor !in calls
    ensures k <= |calls|
    ensures var r := Run(s, calls);
      r.monitor.Some? &&
      (!r.monitor.value.lost ==> Surplus(s, calls) - Surplus(s, calls[..k]) == |r.monitor.value.buffer|)
  {
    ChannelStays(s, calls);
    k := |calls|;
    assert calls[..k] == calls;
    if Run(s, calls).monitor.value.buffer != [] {
      var front := calls[..|calls| - 1];
      ChannelStays(s, front);
      k := BacklogIsSurplus(s, front);
      assert calls[..k] == front[..k];
      StepChannel(Run(s, front), calls[|calls| - 1]);
    }
  }

  lemma {:induction false} LostByBurst<F>(s: Port<F>, calls: seq<Call<F>>) returns (i: nat, j: nat)
    requires Fresh(s) && Monitor !in calls && Run(s, calls).monitor.Some? && Run(s, calls).monitor.value.lost
    ensures Burst(s, calls, i, j)
  {
    var front := calls[..|calls| - 1];
    ChannelStays(s, front);
    if Run(s, front).monitor.value.lost {
      i, j := LostByBurst(s, front);
      assert calls[..i] == front[..i] && calls[..j] == front[..j];
    } else {
      i := BacklogIsSurplus(s, front);
      j := |calls|;
      StepChannel(Run(s, front), calls[|calls| - 1]);
      assert calls[..i] == front[..i] && calls[..j] == calls;
    }
  }

  lemma {:induction false} LostStays<F>(s: Port<F>, calls: seq<Call<F>>, j: nat)
    requires Fresh(s) && Monitor !in calls && j <= |calls|
    requires Run(s, calls[..j]).monitor.Some? && Run(s, calls[..j]).monitor.value.lost
    ensures Run(s, calls).monitor.Some? && Run(s, calls).monitor.value.lost
    decreases |calls|
  {
    if j < |calls| {
      var front := calls[..|calls| - 1];
      assert calls[..j] == front[..j];
      LostStays(s, front, j);
      ChannelStays(s, front);
      StepChannel(Run(s, front), calls[|calls| - 1]);
    } else {
      assert calls[..j] == calls;
    }
  }

  lemma BurstLoses<F>(s: Port<F>, calls: seq<Call<F>>, i: nat, j: nat)
    requires Fresh(s) && Monitor !in calls && Burst(s, calls, i, j)
    ensures Run(s, calls).monitor.Some? && Run(s, calls).monitor.value.lost
  {
    assert calls[..j][..i] == calls[..i];
    ChannelStays(s, calls[..j]);
    BacklogBoundsSurplus(s, calls[..j], i);
    LostStays(s, calls, j);
  }

  /** An event is lost exactly when at some point announcements have outnumbered receives by
      more than the capacity since some earlier point. A monitor that keeps up loses nothing,
      however long the run. */
  lemma LostIffBurst<F>(s: Port<F>, calls: seq<Call<F>>)
    requires Fresh(s) && Monitor !in calls
    ensures Run(s, calls).monitor.Some?
    ensures Run(s, calls).monitor.value.lost <==> exists i: nat, j: nat :: Burst(s, calls, i, j)
  {
    ChannelStays(s, calls);
    if Run(s, calls).monitor.value.lost {
      var i, j := LostByBurst(s, calls);
    }
    if i: nat, j: nat :| Burst(s, calls, i, j) {
      BurstLoses(s, calls, i, j);
    }
  }
}
