/** The port itself: a list of devices, shared flags and an event channel, updated in place. */
module VirtualPorts {
  import opened Text
  import opened VirtualDevices
  import opened PortModel

  type FlagListed = Listed<ConnectionFlag>

  class EventChannel {
    var buffer: seq<DeviceEvent>
    ghost var base: set<string>
    ghost var received: seq<DeviceEvent>
    ghost var lost: bool

    constructor (ghost ids: set<string>)
      ensures View() == Channel(ids, [], [], false)
    {
      buffer, base, received, lost := [], ids, [], false;
    }

    ghost function View(): Channel
      reads this
    {
      Channel(base, buffer, received, lost)
    }

    /** A send on a full channel is dropped. */
    method Send(e: DeviceEvent)
      modifies this
      ensures View() == TrySend(old(View()), e)
    {
      if |buffer| < CHANNEL_CAPACITY {
        buffer := buffer + [e];
      } else {
        lost := true;
      }
    }

    method Recv() returns (e: Option<DeviceEvent>)
      modifies this
      ensures View() == Take(old(View()))
      ensures e == if old(buffer) == [] then None else Some(old(buffer)[0])
    {
      if buffer == [] {
        return None;
      }
      e := Some(buffer[0]);
      received := received + [buffer[0]];
      buffer := buffer[1..];
    }
  }

  function Entry(d: VirtualDevice): FlagListed {
    Listed(d.id, d.name, d.flag)
  }

  function Listing(ds: seq<VirtualDevice>): seq<FlagListed> {
    seq(|ds|, i requires 0 <= i < |ds| => Entry(ds[i]))
  }

  /** The devices of other ids, in order. */
  function Retained(ds: seq<VirtualDevice>, id: string): seq<VirtualDevice> {
    if ds == [] then []
    else
      var last := ds[|ds| - 1];
      Retained(ds[..|ds| - 1], id) + (if last.id != id then [last] else [])
  }

  method Retain(ds: seq<VirtualDevice>, id: string) returns (kept: seq<VirtualDevice>)
    ensures kept == Retained(ds, id)
  {
    kept := [];
    for i := 0 to |ds|
      invariant kept == Retained(ds[..i], id)
    {
      assert ds[..i + 1][..i] == ds[..i];
      if ds[i].id != id {
        kept := kept + [ds[i]];
      }
    }
    assert ds[..|ds|] == ds;
  }

  lemma {:induction false} RetainedListing(ds: seq<VirtualDevice>, id: string)
    ensures Listing(Retained(ds, id)) == Without(Listing(ds), id)
  {
    if ds != [] {
      var front, last := ds[..|ds| - 1], ds[|ds| - 1];
      assert ds == front + [last];
      RetainedListing(front, id);
      assert Listing(ds) == Listing(front) + [Entry(last)];
      WithoutAppend(Listing(front), Entry(last), id);
      assert Listing(Retained(front, id) + [last]) == Listing(Retained(front, id)) + [Entry(last)];
    }
  }

  lemma {:induction false} RetainedMember(ds: seq<VirtualDevice>, id: string, d: VirtualDevice)
    ensures d in Retained(ds, id) <==> d in ds && d.id != id
  {
    if ds != [] {
      RetainedMember(ds[..|ds| - 1], id, d);
      assert ds == ds[..|ds| - 1] + [ds[|ds| - 1]];
    }
  }

  ghost function Flags(known: set<ConnectionFlag>): map<ConnectionFlag, bool>
    reads known
  {
    map f | f in known :: f.connected
  }

  ghost function MonitorView(tx: EventChannel?): Option<Channel>
    reads tx
  {
    if tx == null then None else Some(tx.View())
  }

  class VirtualHidPort {
    var devices: seq<VirtualDevice>
    var eventTx: EventChannel?
    ghost var known: set<ConnectionFlag>
    ghost var handles: seq<FlagListed>

    ghost function View(): Port<ConnectionFlag>
      reads this, known, eventTx
    {
      Port(Listing(devices), Flags(known), handles, MonitorView(eventTx))
    }

    ghost predicate Valid()
      reads this
    {
      forall d :: d in devices ==> d.flag in known
    }

    constructor ()
      ensures Valid() && View() == Empty()
      ensures known == {} && devices == []
    {
      devices, eventTx, known, handles := [], null, {}, [];
      new;
      assert View() == Empty<ConnectionFlag>();
    }

    method EmitEvent(e: DeviceEvent)
      modifies eventTx
      ensures MonitorView(eventTx) == Sent(old(MonitorView(eventTx)), e)
    {
      if eventTx != null {
        eventTx.Send(e);
      }
    }

    /** Takes ownership of a device no one else in the port has seen. */
    method AddDeviceShared(device: VirtualDevice)
      requires Valid() && device !in devices && device.flag !in known
      modifies this`devices, this`known, device, device.flag, eventTx
      ensures Valid() && devices == old(devices) + [device] && eventTx == old(eventTx)
      ensures known == old(known) + {device.flag}
      ensures View() == Step(old(View()), Add(Entry(device)))
      ensures device.Info().isConnected
    {
      ghost var before, added := View(), Entry(device);
      device.infoConnected := true;
      device.flag.connected := true;
      devices := devices + [device];
      known := known + {device.flag};
      assert Listing(devices) == before.devices + [added];
      assert Flags(known) == before.flags[device.flag := true];
      EmitEvent(Connected(device.Info()));
      AddParts(before, added, View());
    }

    /** Finds the first device with this id. */
    method Find(id: string) returns (found: Option<VirtualDevice>)
      ensures found.None? <==> First(Listing(devices), id).None?
      ensures found.Some? ==> found.value in devices && First(Listing(devices), id) == Some(Entry(found.value))
    {
      for i := 0 to |devices|
        invariant forall k :: 0 <= k < i ==> Listing(devices)[k].id != id
      {
        if devices[i].id == id {
          FirstAt(Listing(devices), id, i);
          return Some(devices[i]);
        }
      }
      return None;
    }

    /** Switches a listed device off and tells the monitor. */
    method Disconnect(d: VirtualDevice)
      requires Valid() && d in devices
      modifies d.flag, eventTx
      ensures Listing(devices) == old(Listing(devices))
      ensures Flags(known) == old(Flags(known))[d.flag := false]
      ensures MonitorView(eventTx)
           == Sent(old(MonitorView(eventTx)), Disconnected(DeviceInfo(d.id, d.name, false)))
    {
      d.flag.connected := false;
      assert Flags(known) == old(Flags(known))[d.flag := false];
      EmitEvent(Disconnected(d.Info().(isConnected := false)));
    }

    /** Keeps the devices of other ids. */
    method Drop(id: string)
      requires Valid()
      modifies this`devices
      ensures Valid() && devices == Retained(old(devices), id)
      ensures Listing(devices) == Without(old(Listing(devices)), id)
    {
      RetainedListing(devices, id);
      var kept := Retain(devices, id);
      forall d | d in kept
        ensures d.flag in known
      {
        RetainedMember(devices, id, d);
      }
      devices := kept;
    }

    method RemoveDeviceShared(id: string)
      requires Valid()
      modifies this`devices, known, eventTx
      ensures Valid() && eventTx == old(eventTx) && known == old(known)
      ensures View() == Step(old(View()), Remove(id))
      ensures devices == Retained(old(devices), id)
    {
      ghost var before := View();
      var found := Find(id);
      if found.Some? {
        Disconnect(found.value);
      } else {
        NothingWithout(before.devices, id);
      }
      Drop(id);
      RemoveParts(before, id, View());
    }

    /** A handle on the listed device `d`. */
    ghost predicate SharesWith(handle: VirtualDevice, d: FlagListed)
      reads this
    {
      exists device :: device in devices && Entry(device) == d
                       && handle.state == device.state && handle.flag == device.flag
    }

    /** A handle shares the state and the flag of the first device with this id. */
    method OpenDevice(id: string) returns (handle: Option<VirtualDevice>)
      requires Valid()
      modifies this`handles
      ensures Valid() && View() == Step(old(View()), Open(id))
      ensures handle.None? <==> First(Listing(devices), id).None?
      ensures handle.Some? ==> fresh(handle.value) && Entry(handle.value) == First(Listing(devices), id).value
      ensures handle.Some? ==> handle.value.Info().isConnected == handle.value.flag.connected
      ensures handle.Some? ==> SharesWith(handle.value, First(Listing(devices), id).value)
    {
      var found := Find(id);
      if found.None? {
        return None;
      }
      var device := found.value;
      var info := device.Info().(isConnected := device.flag.connected);
      var virtualDevice := new VirtualDevice.Share(info, device.state, device.flag);
      RecordHandle(id, device);
      return Some(virtualDevice);
    }

    /** Bookkeeping for the specification: which handles exist. */
    ghost method RecordHandle(id: string, device: VirtualDevice)
      requires Valid() && First(Listing(devices), id) == Some(Entry(device))
      modifies this`handles
      ensures View() == Step(old(View()), Open(id))
    {
      ghost var before := View();
      handles := handles + [Entry(device)];
      OpenParts(before, id, View());
    }

    method ListDevices() returns (infos: seq<DeviceInfo>)
      ensures |infos| == |devices|
      ensures forall i :: 0 <= i < |infos| ==> infos[i] == devices[i].Info().(isConnected := devices[i].flag.connected)
    {
      infos := [];
      for i := 0 to |devices|
        invariant |infos| == i
        invariant forall k :: 0 <= k < i ==>
          infos[k] == devices[k].Info().(isConnected := devices[k].flag.connected)
      {
        infos := infos + [devices[i].Info().(isConnected := devices[i].flag.connected)];
      }
    }

    /** In a coherent port, an opened handle works exactly while it is attached: its flag is the
        flag of the first listed device with its id. */
    lemma HandleWorksIffAttached(h: VirtualDevice)
      requires Valid() && Coherent(View()) && Entry(h) in handles
      ensures h.flag.connected <==> First(Listing(devices), h.id) == Some(Entry(h))
    {
      var s := View();
      assert h.flag in s.flags && s.flags[h.flag] == h.flag.connected;
      if Attached(s, Entry(h)) {
        assert s.Alive(Entry(h));
      }
    }

    /** After any run of calls a handle's flag is up exactly if it was before and its id was not
        removed: the theorem about runs, read off the port's own fields. */
    lemma HandleAfterRun(before: Port<ConnectionFlag>, calls: seq<Call<ConnectionFlag>>, h: VirtualDevice)
      requires Valid() && Coherent(before) && OwnFlags(before, calls) && View() == Run(before, calls)
      requires Entry(h) in before.handles
      ensures Coherent(View()) && Entry(h) in handles
      ensures h.flag.connected <==> before.Alive(Entry(h)) && Remove(h.id) !in calls
      ensures h.flag.connected <==> First(Listing(devices), h.id) == Some(Entry(h))
    {
      HandlesDieOnlyByRemoval(before, calls);
      HandleWorksIffAttached(h);
      assert View().Alive(Entry(h)) <==> h.flag.connected;
    }

    /** A new channel replaces the old one. */
    method MonitorDevices() returns (rx: EventChannel)
      requires Valid()
      modifies this`eventTx
      ensures Valid() && fresh(rx) && eventTx == rx
      ensures View() == Step(old(View()), Monitor)
    {
      rx := new EventChannel(Ids(Listing(devices)));
      eventTx := rx;
    }
  }

  lemma AddParts(s: Port<ConnectionFlag>, d: FlagListed, t: Port<ConnectionFlag>)
    requires t.devices == s.devices + [d] && t.flags == s.flags[d.flag := true] && t.handles == s.handles
    requires t.monitor == Sent(s.monitor, Connected(DeviceInfo(d.id, d.name, true)))
    ensures t == Step(s, Add(d))
  {
  }

  lemma RemoveParts(s: Port<ConnectionFlag>, id: string, t: Port<ConnectionFlag>)
    requires t.devices == Without(s.devices, id) && t.handles == s.handles
    requires match First(s.devices, id)
      case None => t.devices == s.devices && t.flags == s.flags && t.monitor == s.monitor
      case Some(d) =>
        && t.flags == s.flags[d.flag := false]
        && t.monitor == Sent(s.monitor, Disconnected(DeviceInfo(d.id, d.name, false)))
    ensures t == Step(s, Remove(id))
  {
  }

  lemma OpenParts(s: Port<ConnectionFlag>, id: string, t: Port<ConnectionFlag>)
    requires First(s.devices, id).Some? && t.devices == s.devices && t.flags == s.flags && t.monitor == s.monitor
    requires t.handles == s.handles + [First(s.devices, id).value]
    ensures t == Step(s, Open(id))
  {
  }
}
