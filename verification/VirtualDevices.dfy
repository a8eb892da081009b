/** The virtual wheel: a shared state with a 1024-slot torque ring, and handles on it. */
module VirtualDevices {
  import opened Text
  import opened RealArithmetic
  import opened WheelPhysics

  const SLOTS := 1024
  const WINDOW := 100

  function Min(a: nat, b: nat): nat { if a < b then a else b }

  // ---- the torque history as a sequence -----------------------------------

  /** The torque before write 0, then every accepted torque. */
  function History(writes: seq<real>): seq<real> { [0.0] + writes }

  /** The ring slot `k` writes back from the current one, as the physics step indexes it. */
  function SlotBack(idx: nat, k: nat): nat
    requires k <= SLOTS
  {
    (idx + SLOTS - k) % SLOTS
  }

  lemma SlotBackIsWriteIndex(n: nat, k: nat)
    requires k <= n && k <= SLOTS
    ensures SlotBack(n % SLOTS, k) == (n - k) % SLOTS
  {
  }

  lemma NextSlot(n: nat)
    ensures (n % SLOTS + 1) % SLOTS == (n + 1) % SLOTS
  {
  }

  /** Fewer than 1024 consecutive writes never share a slot. */
  lemma SlotsDistinct(i: nat, j: nat)
    requires i < j < i + SLOTS
    ensures i % SLOTS != j % SLOTS
  {
  }

  /** Sum of the last `w` successive differences of `h`. */
  function DifferenceSum(h: seq<real>, w: nat): real
    requires w < |h|
  {
    if w == 0 then 0.0
    else DifferenceSum(h, w - 1) + Abs(h[|h| - w] - h[|h| - 1 - w])
  }

  /** The hands-on verdict after `writes`: the average change over the window. */
  predicate HandsOn(writes: seq<real>)
    requires writes != []
  {
    var w := Min(|writes|, WINDOW);
    DifferenceSum(History(writes), w) / (w as real) > 0.1
  }

  /** One more write slides the window: its own jump comes in. */
  lemma {:induction false} WindowGrows(h: seq<real>, x: real, w: nat)
    requires w < |h|
    ensures DifferenceSum(h + [x], w + 1) == DifferenceSum(h, w) + Abs(x - h[|h| - 1])
  {
    if 0 < w {
      WindowGrows(h, x, w - 1);
    }
  }

  /** Hands are on the wheel exactly when the jumps of the last 100 writes, or of all there
      were, sum to more than a tenth of a newton metre each. */
  lemma HandsOnIff(writes: seq<real>)
    requires writes != []
    ensures var w := if |writes| < 100 then |writes| else 100;
      HandsOn(writes) <==> DifferenceSum(History(writes), w) > 0.1 * (w as real)
  {
    var w := Min(|writes|, WINDOW);
    QuotientAtMost(DifferenceSum(History(writes), w), w as real, 0.1);
  }

  /** After 100 writes the verdict slides: the newest jump comes in and the oldest drops out. */
  lemma HandsOnSlides(writes: seq<real>, x: real)
    requires 100 <= |writes|
    ensures var h := History(writes);
      HandsOn(writes + [x]) <==>
        DifferenceSum(h, 100) + Abs(x - h[|writes|]) - Abs(h[|writes| - 99] - h[|writes| - 100]) > 10.0
  {
    var h := History(writes);
    assert History(writes + [x]) == h + [x];
    HandsOnIff(writes + [x]);
    WindowGrows(h, x, 99);
  }

  /** The window bounds how far the torque has moved. */
  lemma {:induction false} NetChangeBounded(h: seq<real>, w: nat)
    requires w < |h|
    ensures Abs(h[|h| - 1] - h[|h| - 1 - w]) <= DifferenceSum(h, w)
  {
    if 0 < w {
      NetChangeBounded(h, w - 1);
    }
  }

  /** A hands-off verdict bounds the net torque change over the whole window. */
  lemma HandsOffBoundsChange(writes: seq<real>)
    requires writes != [] && !HandsOn(writes)
    ensures var h, w := History(writes), Min(|writes|, WINDOW);
      Abs(h[|writes|] - h[|writes| - w]) <= 0.1 * (w as real)
  {
    var w := Min(|writes|, WINDOW);
    NetChangeBounded(History(writes), w);
    QuotientAtMost(DifferenceSum(History(writes), w), w as real, 0.1);
  }

  lemma {:induction false} FlatWindowSumsToZero(h: seq<real>, w: nat)
    requires w < |h|
    ensures (forall j :: |h| - 1 - w <= j < |h| ==> h[j] == h[|h| - 1]) <==> DifferenceSum(h, w) == 0.0
    ensures 0.0 <= DifferenceSum(h, w)
  {
    if 0 < w {
      FlatWindowSumsToZero(h, w - 1);
      NetChangeBounded(h, w - 1);
    }
  }

  /** A torque held over the whole window reads as hands off. */
  lemma SteadyTorqueIsHandsOff(writes: seq<real>)
    requires writes != []
    requires var h, w := History(writes), Min(|writes|, WINDOW);
      forall j :: |writes| - w <= j < |writes| ==> h[j] == h[|writes|]
    ensures !HandsOn(writes)
  {
    var h, w := History(writes), Min(|writes|, WINDOW);
    FlatWindowSumsToZero(h, w);
  }

  /** The ring holds the newest 1024 elements of the history, each at its index modulo 1024. */
  ghost predicate RingHolds(ring: seq<real>, writes: seq<real>) {
    && |ring| == SLOTS
    && (forall j {:trigger History(writes)[j]} :: 0 <= j <= |writes| && |writes| < j + SLOTS ==>
          ring[j % SLOTS] == History(writes)[j])
    && (forall s :: 0 <= s < SLOTS ==> -MAX_TORQUE <= ring[s] <= MAX_TORQUE)
  }

  /** Overwriting the next slot replaces the oldest element by the newest. */
  lemma PushKeepsRing(ring: seq<real>, writes: seq<real>, torque: real)
    requires RingHolds(ring, writes) && -MAX_TORQUE <= torque <= MAX_TORQUE
    ensures RingHolds(ring[(|writes| + 1) % SLOTS := torque], writes + [torque])
  {
    var n := |writes| + 1;
    var ring' := ring[n % SLOTS := torque];
    var writes' := writes + [torque];
    forall j | 0 <= j <= n && n < j + SLOTS
      ensures ring'[j % SLOTS] == History(writes')[j]
    {
      if j < n {
        SlotsDistinct(j, n);
        assert History(writes')[j] == History(writes)[j];
      }
    }
  }

  /** The ring read back from its current slot is the history read backwards. */
  lemma RingIsHistory(ring: seq<real>, writes: seq<real>, k: nat)
    requires RingHolds(ring, writes) && k <= Min(|writes|, SLOTS - 1)
    ensures ring[SlotBack(|writes| % SLOTS, k)] == History(writes)[|writes| - k]
  {
    SlotBackIsWriteIndex(|writes|, k);
    assert ring[(|writes| - k) % SLOTS] == History(writes)[|writes| - k];
  }

  // ---- the shared state ---------------------------------------------------

  class DeviceState {
    var wheelAngleDeg: real
    var wheelSpeedRadS: real
    var temperatureC: int
    var faultFlags: bv8
    var handsOn: bool
    var lastTorqueNm: real
    var lastSeq: nat
    const torqueHistory: array<real>
    var torqueHistoryIdx: nat
    var torqueHistoryLen: nat
    ghost var writes: seq<real>
    ghost var actions: seq<Action>

    ghost function Wheel(): Wheel
      reads this
    {
      WheelPhysics.Wheel(wheelAngleDeg, wheelSpeedRadS, temperatureC)
    }

    ghost predicate RingValid()
      reads this, torqueHistory
    {
      && torqueHistory.Length == SLOTS
      && RingHolds(torqueHistory[..], writes)
      && torqueHistoryIdx == |writes| % SLOTS
      && torqueHistoryLen == Min(|writes|, SLOTS)
      && torqueHistory[torqueHistoryIdx] == lastTorqueNm
    }

    /** The wheel is where the writes and steps so far have driven it. */
    ghost predicate Tracks()
      reads this
    {
      HasDriven(actions, Driven(Wheel(), lastTorqueNm))
    }

    ghost predicate Valid()
      reads this, torqueHistory
    {
      RingValid() && Tracks()
    }

    /** Whatever the run, the wheel is between its stops, below 137.5 rad/s, and shows 20 to
        100 degrees. */
    lemma StaysBounded()
      requires Valid()
      ensures -1080.0 <= wheelAngleDeg <= 1080.0 && -137.5 < wheelSpeedRadS < 137.5
      ensures 20 <= temperatureC <= 100 && -25.0 <= lastTorqueNm <= 25.0
    {
      RunsStayBounded(actions);
    }

    constructor ()
      ensures Valid() && fresh(torqueHistory)
      ensures writes == [] && actions == [] && torqueHistory.Length == 1024
      ensures wheelAngleDeg == 0.0 && wheelSpeedRadS == 0.0 && temperatureC == 35 && lastTorqueNm == 0.0
      ensures handsOn && faultFlags == 0
    {
      wheelAngleDeg, wheelSpeedRadS, temperatureC := 0.0, 0.0, 35;
      faultFlags, handsOn, lastTorqueNm, lastSeq := 0, true, 0.0, 0;
      torqueHistory := new real[SLOTS](_ => 0.0);
      torqueHistoryIdx, torqueHistoryLen, writes, actions := 0, 0, [], [];
    }

    /** An accepted write. */
    method Push(torque: real, sequence: nat)
      requires Valid() && -MAX_TORQUE <= torque <= MAX_TORQUE
      modifies this`lastTorqueNm, this`lastSeq, this`torqueHistoryIdx, this`torqueHistoryLen
      modifies this`writes, this`actions, torqueHistory
      ensures Valid()
      ensures writes == old(writes) + [torque] && lastSeq == sequence && lastTorqueNm == torque
      ensures actions == old(actions) + [Write(torque)]
    {
      ghost var ring, next := torqueHistory[..], writes + [torque];
      PushKeepsRing(ring, writes, torque);
      DrivenNext(actions, Driven(Wheel(), lastTorqueNm), Write(torque));
      NextSlot(|writes|);
      lastTorqueNm := torque;
      lastSeq := sequence;
      var idx := (torqueHistoryIdx + 1) % SLOTS;
      torqueHistoryIdx := idx;
      torqueHistory[idx] := torque;
      if torqueHistoryLen < SLOTS {
        torqueHistoryLen := torqueHistoryLen + 1;
      }
      writes, actions := next, actions + [Write(torque)];
      assert torqueHistory[..] == ring[idx := torque];
    }

    /** The windowed sum over the ring. */
    method DifferenceSumOverRing() returns (sumDiff: real)
      requires RingValid()
      ensures sumDiff == DifferenceSum(History(writes), Min(|writes|, WINDOW))
    {
      sumDiff := 0.0;
      var w := Min(torqueHistoryLen, WINDOW);
      for i := 0 to w
        invariant sumDiff == DifferenceSum(History(writes), i)
      {
        var currIdx := (torqueHistoryIdx + SLOTS - i) % SLOTS;
        var prevIdx := (torqueHistoryIdx + SLOTS - i - 1) % SLOTS;
        RingIsHistory(torqueHistory[..], writes, i);
        RingIsHistory(torqueHistory[..], writes, i + 1);
        sumDiff := sumDiff + Abs(torqueHistory[currIdx] - torqueHistory[prevIdx]);
      }
    }

    /** Angle, speed and temperature. */
    method Move(dt: real)
      requires Valid() && 0.0 <= dt
      modifies this`wheelAngleDeg, this`wheelSpeedRadS, this`temperatureC, this`actions
      ensures Valid() && actions == old(actions) + [Simulate(dt)]
      ensures Wheel() == Step(old(Wheel()), lastTorqueNm, dt)
      ensures -1080.0 < wheelAngleDeg < 1080.0 ==> Balanced(old(Wheel()), Wheel(), lastTorqueNm, dt)
    {
      DrivenNext(actions, Driven(Wheel(), lastTorqueNm), Simulate(dt));
      if -1080.0 < Step(Wheel(), lastTorqueNm, dt).angle < 1080.0 {
        StepBalance(Wheel(), lastTorqueNm, dt);
      }
      wheelAngleDeg, wheelSpeedRadS, temperatureC :=
        Advance(wheelAngleDeg, wheelSpeedRadS, temperatureC, lastTorqueNm, dt);
      actions := actions + [Simulate(dt)];
    }

    /** Hands-on detection, once there is enough history. */
    method DetectHands()
      requires Valid()
      modifies this`handsOn
      ensures Valid()
      ensures handsOn == if |writes| > 10 then HandsOn(writes) else old(handsOn)
    {
      if torqueHistoryLen > 10 {
        var sumDiff := DifferenceSumOverRing();
        var torqueVariance := sumDiff / (Min(torqueHistoryLen, WINDOW) as real);
        handsOn := torqueVariance > 0.1;
      }
    }

    method SimulatePhysics(dt: real)
      requires Valid() && 0.0 <= dt
      modifies this`wheelAngleDeg, this`wheelSpeedRadS, this`temperatureC, this`handsOn, this`actions
      ensures Valid() && actions == old(actions) + [Simulate(dt)]
      ensures Wheel() == Step(old(Wheel()), lastTorqueNm, dt)
      ensures -1080.0 < wheelAngleDeg < 1080.0 ==> Balanced(old(Wheel()), Wheel(), lastTorqueNm, dt)
      ensures handsOn == if |writes| > 10 then HandsOn(writes) else old(handsOn)
    {
      Move(dt);
      DetectHands();
    }
  }

  /** The physics part of the step. */
  method Advance(angle: real, speed: real, temperature: int, torque: real, dt: real)
    returns (wheelAngleDeg: real, wheelSpeedRadS: real, temperatureC: int)
    ensures Wheel(wheelAngleDeg, wheelSpeedRadS, temperatureC) == Step(Wheel(angle, speed, temperature), torque, dt)
  {
    var torqueTotal := torque - FRICTION * Signum(speed) - DAMPING * speed;
    var acceleration := torqueTotal / INERTIA;
    wheelSpeedRadS := speed + acceleration * dt;
    wheelAngleDeg := angle + wheelSpeedRadS * DEG_PER_RAD * dt;
    ghost var w := Wheel(angle, speed, temperature);
    assert acceleration == Acceleration(speed, torque);
    assert wheelSpeedRadS == NextSpeed(w, torque, dt) && wheelAngleDeg == NextAngle(w, torque, dt);
    if wheelAngleDeg > MAX_ANGLE {
      wheelAngleDeg := MAX_ANGLE;
      wheelSpeedRadS := 0.0;
    } else if wheelAngleDeg < -MAX_ANGLE {
      wheelAngleDeg := -MAX_ANGLE;
      wheelSpeedRadS := 0.0;
    }
    var torqueHeating := Abs(torque) * 0.1;
    var ambientCooling := (temperature as real - 25.0) * 0.01;
    var tempChange := (torqueHeating - ambientCooling) * dt;
    assert temperature as real + tempChange == Heated(temperature, torque, dt);
    temperatureC := Clamp(temperature as real + tempChange, 20.0, 100.0).Floor;
  }

  // ---- handles ------------------------------------------------------------

  /** The shared connection flag. */
  class ConnectionFlag {
    var connected: bool

    constructor (value: bool)
      ensures connected == value
    {
      connected := value;
    }
  }

  datatype Float = Finite(value: real) | NonFinite

  datatype WriteResult = Accepted | DeviceDisconnected | InvalidConfig | TorqueLimit

  datatype DeviceInfo = DeviceInfo(id: string, name: string, isConnected: bool)

  datatype Telemetry = Telemetry(
    wheelAngleDeg: real, wheelSpeedRadS: real, temperatureC: int, faultFlags: bv8, handsOn: bool)

  /** A device or a handle: the info record, and what it shares with other handles. */
  class VirtualDevice {
    const id: string
    const name: string
    var infoConnected: bool
    const state: DeviceState
    const flag: ConnectionFlag

    constructor (id: string, name: string)
      ensures Info() == DeviceInfo(id, name, true)
      ensures fresh(state) && fresh(state.torqueHistory) && fresh(flag)
      ensures state.Valid() && state.writes == [] && flag.connected
    {
      this.id, this.name, infoConnected := id, name, true;
      state := new DeviceState();
      flag := new ConnectionFlag(true);
    }

    /** Another handle on the same device. */
    constructor Share(info: DeviceInfo, state: DeviceState, flag: ConnectionFlag)
      ensures Info() == info && this.state == state && this.flag == flag
    {
      id, name, infoConnected := info.id, info.name, info.isConnected;
      this.state, this.flag := state, flag;
    }

    function Info(): DeviceInfo
      reads this
    {
      DeviceInfo(id, name, infoConnected)
    }

    method WriteFfbReport(torque: Float, sequence: nat) returns (r: WriteResult)
      requires state.Valid()
      modifies state, state.torqueHistory
      ensures state.Valid()
      ensures r == if !flag.connected then DeviceDisconnected
                   else if torque.NonFinite? then InvalidConfig
                   else if Abs(torque.value) > 25.0 then TorqueLimit
                   else Accepted
      ensures r.Accepted? ==> torque.Finite? && state.writes == old(state.writes) + [torque.value]
                              && state.actions == old(state.actions) + [Write(torque.value)]
                              && state.lastSeq == sequence && state.lastTorqueNm == torque.value
      ensures !r.Accepted? ==> unchanged(state) && unchanged(state.torqueHistory)
      ensures state.Wheel() == old(state.Wheel()) && state.handsOn == old(state.handsOn)
      ensures state.faultFlags == old(state.faultFlags)
    {
      if !flag.connected {
        return DeviceDisconnected;
      }
      if torque.NonFinite? {
        return InvalidConfig;
      }
      if Abs(torque.value) > MAX_TORQUE {
        return TorqueLimit;
      }
      state.Push(torque.value, sequence);
      return Accepted;
    }

    method ReadTelemetry() returns (t: Option<Telemetry>)
      ensures t == if flag.connected
                   then Some(Telemetry(state.wheelAngleDeg, state.wheelSpeedRadS, state.temperatureC,
                                       state.faultFlags, state.handsOn))
                   else None
    {
      if !flag.connected {
        return None;
      }
      return Some(Telemetry(state.wheelAngleDeg, state.wheelSpeedRadS, state.temperatureC,
                            state.faultFlags, state.handsOn));
    }
  }
}
