/** One step of the virtual wheel's physics, over real numbers. */
module WheelPhysics {
  import opened RealArithmetic

  const INERTIA := 0.1
  const FRICTION := 0.05
  const DAMPING := 0.02
  const MAX_ANGLE := 1080.0
  const DEG_PER_RAD := 57.29577951308232
  const MAX_TORQUE := 25.0

  /** Angle in degrees, speed in radians per second, temperature in whole degrees Celsius. */
  datatype Wheel = Wheel(angle: real, speed: real, temperature: int)

  const INITIAL := Wheel(0.0, 0.0, 35)

  /** `f32::signum`: the sign of positive zero is +1, and no step produces negative zero. */
  function Signum(x: real): real { if x < 0.0 then -1.0 else 1.0 }

  function Acceleration(speed: real, torque: real): real {
    (torque - FRICTION * Signum(speed) - DAMPING * speed) / INERTIA
  }

  function Clamp(x: real, low: real, high: real): real {
    if x < low then low else if high < x then high else x
  }

  function Heated(temperature: int, torque: real, dt: real): real {
    temperature as real + (Abs(torque) * 0.1 - (temperature as real - 25.0) * 0.01) * dt
  }

  function NextSpeed(w: Wheel, torque: real, dt: real): real {
    w.speed + Acceleration(w.speed, torque) * dt
  }

  function NextAngle(w: Wheel, torque: real, dt: real): real {
    w.angle + NextSpeed(w, torque, dt) * DEG_PER_RAD * dt
  }

  /** The wheel stops dead at either end. */
  function Stopped(angle: real, speed: real, temperature: int): Wheel {
    if angle > MAX_ANGLE then Wheel(MAX_ANGLE, 0.0, temperature)
    else if angle < -MAX_ANGLE then Wheel(-MAX_ANGLE, 0.0, temperature)
    else Wheel(angle, speed, temperature)
  }

  function Step(w: Wheel, torque: real, dt: real): Wheel {
    Stopped(NextAngle(w, torque, dt), NextSpeed(w, torque, dt),
            Clamp(Heated(w.temperature, torque, dt), 20.0, 100.0).Floor)
  }

  // ---- the motion of one step ---------------------------------------------

  /** The new speed is the one that balances torque, friction and damping over the step; the
      wheel turns by it, and stops dead where that would take it past 1080 degrees. */
  lemma StepMotion(w: Wheel, torque: real, dt: real, speed: real)
    requires 0.1 * (speed - w.speed)
          == (torque - 0.05 * (if w.speed < 0.0 then -1.0 else 1.0) - 0.02 * w.speed) * dt
    ensures var s, angle := Step(w, torque, dt), w.angle + speed * 57.29577951308232 * dt;
      && (angle > 1080.0 ==> s.angle == 1080.0 && s.speed == 0.0)
      && (angle < -1080.0 ==> s.angle == -1080.0 && s.speed == 0.0)
      && (-1080.0 <= angle <= 1080.0 ==> s.angle == angle && s.speed == speed)
  {
    BalancedSpeed(w, torque, dt);
    assert NextSpeed(w, torque, dt) == speed;
  }

  lemma BalancedSpeed(w: Wheel, torque: real, dt: real)
    ensures 0.1 * (NextSpeed(w, torque, dt) - w.speed)
         == (torque - 0.05 * (if w.speed < 0.0 then -1.0 else 1.0) - 0.02 * w.speed) * dt
  {
    var total := torque - FRICTION * Signum(w.speed) - DAMPING * w.speed;
    assert Acceleration(w.speed, torque) == 10.0 * total;
    assert 0.1 * ((10.0 * total) * dt) == total * dt;
  }

  /** Momentum and angle balance over a step of length `dt`. */
  ghost predicate Balanced(from: Wheel, to: Wheel, torque: real, dt: real) {
    && 0.1 * (to.speed - from.speed)
       == (torque - 0.05 * (if from.speed < 0.0 then -1.0 else 1.0) - 0.02 * from.speed) * dt
    && to.angle - from.angle == to.speed * 57.29577951308232 * dt
  }

  /** They do whenever the wheel ends between the stops. */
  lemma StepBalance(w: Wheel, torque: real, dt: real)
    requires -1080.0 < Step(w, torque, dt).angle < 1080.0
    ensures Balanced(w, Step(w, torque, dt), torque, dt)
  {
    BalancedSpeed(w, torque, dt);
    StepMotion(w, torque, dt, NextSpeed(w, torque, dt));
  }

  /** The reading gains a tenth of the torque and loses a hundredth of its excess over 25
      degrees each second; it is cut down to whole degrees, from 20 to 100. */
  lemma StepHeat(w: Wheel, torque: real, dt: real)
    ensures var t, t' := w.temperature as real, Step(w, torque, dt).temperature;
      var heated := t + (0.1 * (if torque < 0.0 then -torque else torque) - 0.01 * (t - 25.0)) * dt;
      && (heated < 20.0 ==> t' == 20) && (heated > 100.0 ==> t' == 100)
      && (20.0 <= heated <= 100.0 ==> t' as real <= heated < t' as real + 1.0)
  {
    var t := w.temperature as real;
    var gain := 0.1 * (if torque < 0.0 then -torque else torque) - 0.01 * (t - 25.0);
    assert Abs(torque) * 0.1 - (t - 25.0) * 0.01 == gain;
    assert Heated(w.temperature, torque, dt) == t + gain * dt;
  }

  /** At rest: the wheel stays where it is exactly when the torque equals the friction to the
      right, or pushes it further against the stop it stands at. Without any torque it starts
      to turn left, because friction acts on a wheel at rest as on one turning right. */
  lemma RestKeptIff(w: Wheel, torque: real, dt: real)
    requires w.speed == 0.0 && 0.0 < dt && -1080.0 <= w.angle <= 1080.0
    ensures var s := Step(w, torque, dt);
      s.speed == 0.0 && s.angle == w.angle <==>
        torque == 0.05 || (torque > 0.05 && w.angle == 1080.0) || (torque < 0.05 && w.angle == -1080.0)
  {
    var push := torque - 0.05;
    var speed := 10.0 * push * dt;
    assert 0.1 * (speed - 0.0) == push * dt;
    StepMotion(w, torque, dt, speed);
    if push > 0.0 {
      ProductNonNegative(push, dt);
      ProductNonNegative(speed, dt);
    } else if push < 0.0 {
      ProductNonNegative(-push, dt);
      assert (-push) * dt == -(push * dt);
      ProductNonNegative(-speed, dt);
      assert (-speed) * dt == -(speed * dt);
    }
    assert speed * 57.29577951308232 * dt == 57.29577951308232 * (speed * dt);
  }

  function Mirrored(w: Wheel): Wheel { Wheel(-w.angle, -w.speed, w.temperature) }

  /** A turning wheel has no preferred direction. */
  lemma StepMirrored(w: Wheel, torque: real, dt: real)
    requires w.speed != 0.0
    ensures Step(Mirrored(w), -torque, dt) == Mirrored(Step(w, torque, dt))
  {
    var a, v := Acceleration(w.speed, torque), NextSpeed(w, torque, dt);
    assert Acceleration(-w.speed, -torque) == -a;
    assert (-a) * dt == -(a * dt);
    assert NextSpeed(Mirrored(w), -torque, dt) == -v;
    assert (-v) * DEG_PER_RAD * dt == -(v * DEG_PER_RAD * dt);
    assert NextAngle(Mirrored(w), -torque, dt) == -NextAngle(w, torque, dt);
    assert Heated(w.temperature, -torque, dt) == Heated(w.temperature, torque, dt);
  }

  // ---- the work bound -----------------------------------------------------

  /** The largest acceleration torque and friction can give together. */
  const PEAK := 250.5

  /** A wheel turning right has gained no more kinetic energy than the peak acceleration
      could give it on its way from the left stop; likewise turning left. */
  predicate WithinWork(angle: real, speed: real) {
    && -MAX_ANGLE <= angle <= MAX_ANGLE
    && (speed > 0.0 ==> DEG_PER_RAD * speed * speed <= 2.0 * PEAK * (angle + MAX_ANGLE))
    && (speed < 0.0 ==> DEG_PER_RAD * speed * speed <= 2.0 * PEAK * (MAX_ANGLE - angle))
  }

  /** Kinetic energy gained in one step, turning right. */
  lemma GainBounded(v: real, v': real, step: real, limit: real)
    requires v' == v + step && v' > 0.0 && 0.0 <= limit
    requires if v >= 0.0 then step <= limit else v' <= limit
    ensures v >= 0.0 ==> v' * v' - v * v <= 2.0 * (limit * v')
    ensures v < 0.0 ==> v' * v' <= 2.0 * (limit * v')
  {
    if v >= 0.0 {
      assert v' * v' - v * v == 2.0 * (step * v') - step * step;
      assert 0.0 <= step * step;
      ProductNonNegative(limit - step, v');
      assert (limit - step) * v' == limit * v' - step * v';
    } else {
      ProductNonNegative(limit - v', v');
      assert (limit - v') * v' == limit * v' - v' * v';
      ProductNonNegative(limit, v');
    }
  }

  /** One unclamped step that ends turning right keeps the work bound. */
  lemma RightwardStep(angle: real, v: real, v': real, a: real, dt: real)
    requires -MAX_ANGLE <= angle && 0.0 <= dt
    requires v > 0.0 ==> DEG_PER_RAD * v * v <= 2.0 * PEAK * (angle + MAX_ANGLE)
    requires v' == v + a * dt && v' > 0.0
    requires if v >= 0.0 then a <= PEAK else v' <= PEAK * dt
    ensures DEG_PER_RAD * v' * v' <= 2.0 * PEAK * (angle + v' * DEG_PER_RAD * dt + MAX_ANGLE)
  {
    var limit := PEAK * dt;
    if v >= 0.0 {
      ProductNonNegative(PEAK - a, dt);
      assert (PEAK - a) * dt == PEAK * dt - a * dt;
    }
    GainBounded(v, v', a * dt, limit);
    assert limit * v' == PEAK * (v' * dt);
    assert 2.0 * PEAK * (angle + v' * DEG_PER_RAD * dt + MAX_ANGLE)
        == 2.0 * PEAK * (angle + MAX_ANGLE) + DEG_PER_RAD * (2.0 * (limit * v'));
    var kept := if v >= 0.0 then v * v else 0.0;
    assert DEG_PER_RAD * kept <= 2.0 * PEAK * (angle + MAX_ANGLE);
    assert v' * v' <= kept + 2.0 * (limit * v');
    assert DEG_PER_RAD * (v' * v') <= DEG_PER_RAD * (kept + 2.0 * (limit * v'));
  }

  /** The mirror image. */
  lemma LeftwardStep(angle: real, v: real, v': real, a: real, dt: real)
    requires angle <= MAX_ANGLE && 0.0 <= dt
    requires v < 0.0 ==> DEG_PER_RAD * v * v <= 2.0 * PEAK * (MAX_ANGLE - angle)
    requires v' == v + a * dt && v' < 0.0
    requires if v <= 0.0 then -PEAK <= a else -PEAK * dt <= v'
    ensures DEG_PER_RAD * v' * v' <= 2.0 * PEAK * (MAX_ANGLE - (angle + v' * DEG_PER_RAD * dt))
  {
    assert (-v) * (-v) == v * v && (-v') * (-v') == v' * v';
    assert DEG_PER_RAD * (-v) * (-v) == DEG_PER_RAD * v * v;
    assert DEG_PER_RAD * (-v') * (-v') == DEG_PER_RAD * v' * v';
    assert (-a) * dt == -(a * dt) && (-v') * DEG_PER_RAD * dt == -(v' * DEG_PER_RAD * dt);
    RightwardStep(-angle, -v, -v', -a, dt);
  }

  lemma AccelerationBounded(speed: real, torque: real)
    requires -MAX_TORQUE <= torque <= MAX_TORQUE
    ensures Acceleration(speed, torque) == 10.0 * torque - 0.5 * Signum(speed) - 0.2 * speed
    ensures speed >= 0.0 ==> Acceleration(speed, torque) <= PEAK
    ensures speed <= 0.0 ==> -PEAK <= Acceleration(speed, torque)
  {
  }

  /** Up to five seconds the damping term cannot overshoot. */
  lemma TurnaroundShort(v: real, push: real, dt: real)
    requires -PEAK <= push <= PEAK && 0.0 <= dt <= 5.0
    ensures v < 0.0 ==> v * (1.0 - 0.2 * dt) + push * dt <= PEAK * dt
    ensures v > 0.0 ==> -PEAK * dt <= v * (1.0 - 0.2 * dt) + push * dt
  {
    ProductNonNegative(PEAK - push, dt);
    ProductNonNegative(push + PEAK, dt);
    assert (PEAK - push) * dt == PEAK * dt - push * dt;
    assert (push + PEAK) * dt == push * dt + PEAK * dt;
    if v < 0.0 {
      ProductNonNegative(-v, 1.0 - 0.2 * dt);
      assert (-v) * (1.0 - 0.2 * dt) == -(v * (1.0 - 0.2 * dt));
    }
    if v > 0.0 { ProductNonNegative(v, 1.0 - 0.2 * dt); }
  }

  /** A longer step that ends between the stops ends slowly. */
  lemma FarTravel(v: real, dt: real)
    requires dt > 5.0 && -2.0 * MAX_ANGLE <= v * DEG_PER_RAD * dt <= 2.0 * MAX_ANGLE
    ensures -PEAK * dt <= v <= PEAK * dt
  {
    assert v * DEG_PER_RAD * dt == DEG_PER_RAD * (v * dt);
    assert v * dt == v * (dt - 5.0) + 5.0 * v;
    if v >= 0.0 {
      ProductNonNegative(v, dt - 5.0);
    } else {
      ProductNonNegative(-v, dt - 5.0);
      assert (-v) * (dt - 5.0) == -(v * (dt - 5.0));
    }
  }

  /** A step that turns the wheel around ends no faster than the peak acceleration allows. */
  lemma TurnaroundBounded(angle: real, speed: real, torque: real, dt: real, v': real)
    requires -MAX_TORQUE <= torque <= MAX_TORQUE && 0.0 <= dt
    requires -MAX_ANGLE <= angle <= MAX_ANGLE
    requires v' == speed + Acceleration(speed, torque) * dt
    requires -MAX_ANGLE <= angle + v' * DEG_PER_RAD * dt <= MAX_ANGLE
    ensures speed < 0.0 ==> v' <= PEAK * dt
    ensures speed > 0.0 ==> -PEAK * dt <= v'
  {
    if dt <= 5.0 {
      AccelerationBounded(speed, torque);
      var push := 10.0 * torque - 0.5 * Signum(speed);
      assert v' == speed + (push - 0.2 * speed) * dt;
      assert (push - 0.2 * speed) * dt == push * dt - 0.2 * (speed * dt);
      assert speed * (1.0 - 0.2 * dt) == speed - 0.2 * (speed * dt);
      TurnaroundShort(speed, push, dt);
    } else {
      FarTravel(v', dt);
    }
  }

  lemma UnclampedWithinWork(from: real, v: real, torque: real, dt: real, a: real, v': real, angle: real)
    requires WithinWork(from, v) && -MAX_TORQUE <= torque <= MAX_TORQUE && 0.0 <= dt
    requires a == Acceleration(v, torque) && v' == v + a * dt && angle == from + v' * DEG_PER_RAD * dt
    requires -MAX_ANGLE <= angle <= MAX_ANGLE
    ensures WithinWork(angle, v')
  {
    AccelerationBounded(v, torque);
    TurnaroundBounded(from, v, torque, dt, v');
    if v' > 0.0 {
      RightwardStep(from, v, v', a, dt);
    } else if v' < 0.0 {
      LeftwardStep(from, v, v', a, dt);
    }
  }

  lemma StoppedWithinWork(angle: real, speed: real, temperature: int)
    requires -MAX_ANGLE <= angle <= MAX_ANGLE ==> WithinWork(angle, speed)
    ensures var w := Stopped(angle, speed, temperature); WithinWork(w.angle, w.speed)
  {
  }

  /** Every step, of any length, keeps the work bound. */
  lemma StepWithinWork(w: Wheel, torque: real, dt: real)
    requires WithinWork(w.angle, w.speed)
    requires -MAX_TORQUE <= torque <= MAX_TORQUE && 0.0 <= dt
    ensures WithinWork(Step(w, torque, dt).angle, Step(w, torque, dt).speed)
  {
    var v', angle := NextSpeed(w, torque, dt), NextAngle(w, torque, dt);
    assert -MAX_ANGLE <= angle <= MAX_ANGLE ==> WithinWork(angle, v') by {
      if -MAX_ANGLE <= angle <= MAX_ANGLE {
        UnclampedWithinWork(w.angle, w.speed, torque, dt, Acceleration(w.speed, torque), v', angle);
      }
    }
    StoppedWithinWork(angle, v', Step(w, torque, dt).temperature);
  }

  /** The work bound is a speed limit: about 22 turns a second. */
  lemma WorkBoundsSpeed(angle: real, speed: real)
    requires WithinWork(angle, speed)
    ensures -137.5 < speed < 137.5
  {
    assert DEG_PER_RAD * speed * speed == DEG_PER_RAD * (speed * speed);
    assert (speed - 137.5) * (speed + 137.5) == speed * speed - 137.5 * 137.5;
    assert speed * speed < 137.5 * 137.5;
    if speed > 0.0 {
      assert speed >= 137.5 ==> 0.0 <= (speed - 137.5) * (speed + 137.5);
    } else if speed < 0.0 {
      assert (-speed - 137.5) * (137.5 - speed) == speed * speed - 137.5 * 137.5;
      assert speed <= -137.5 ==> 0.0 <= (-speed - 137.5) * (137.5 - speed);
    }
  }

  // ---- temperature --------------------------------------------------------

  /** The exact step after which the wheel reads below ambient. */
  lemma StepStaysAmbientIff(w: Wheel, torque: real, dt: real)
    ensures 25 <= Step(w, torque, dt).temperature <==> 25.0 <= Heated(w.temperature, torque, dt)
  {
  }

  /** A step length keeps every wheel at or above ambient, whatever its temperature and
      torque, exactly when it is at most 100 seconds. */
  lemma AmbientKeptIff(dt: real)
    requires 0.0 <= dt
    ensures (forall w: Wheel, torque: real :: 25 <= w.temperature <= 100 ==> 25 <= Step(w, torque, dt).temperature)
        <==> dt <= 100.0
  {
    if dt <= 100.0 {
      forall w: Wheel, torque: real | 25 <= w.temperature <= 100
        ensures 25 <= Step(w, torque, dt).temperature
      {
        AmbientKept(w, torque, dt);
      }
    } else {
      var hot := Wheel(0.0, 0.0, 100);
      assert Heated(hot.temperature, 0.0, dt) == 100.0 - 0.75 * dt;
      StepStaysAmbientIff(hot, 0.0, dt);
    }
  }

  lemma AmbientKept(w: Wheel, torque: real, dt: real)
    requires 0.0 <= dt <= 100.0 && 25 <= w.temperature
    ensures 25 <= Step(w, torque, dt).temperature
  {
    var excess := w.temperature as real - 25.0;
    assert Abs(torque) * 0.1 * dt >= 0.0;
    assert excess * (1.0 - 0.01 * dt) >= 0.0;
    assert Heated(w.temperature, torque, dt) == 25.0 + excess * (1.0 - 0.01 * dt) + Abs(torque) * 0.1 * dt;
    StepStaysAmbientIff(w, torque, dt);
  }

  // ---- whole runs ---------------------------------------------------------

  /** What a run does to one wheel: set a torque, or let time pass. */
  datatype Action = Write(torque: real) | Simulate(dt: real)

  predicate Allowed(a: Action) {
    match a
    case Write(torque) => -MAX_TORQUE <= torque <= MAX_TORQUE
    case Simulate(dt) => 0.0 <= dt
  }

  datatype Driven = Driven(wheel: Wheel, torque: real)

  function Run(actions: seq<Action>): Driven {
    if actions == [] then Driven(INITIAL, 0.0)
    else
      var before := Run(actions[..|actions| - 1]);
      match actions[|actions| - 1]
      case Write(torque) => before.(torque := torque)
      case Simulate(dt) => before.(wheel := Step(before.wheel, before.torque, dt))
  }

  /** A run and the wheel it has driven so far. */
  ghost predicate HasDriven(actions: seq<Action>, d: Driven) {
    Run(actions) == d && forall a :: a in actions ==> Allowed(a)
  }

  lemma DrivenNext(actions: seq<Action>, d: Driven, a: Action)
    requires HasDriven(actions, d) && Allowed(a)
    ensures HasDriven(actions + [a],
      match a
      case Write(torque) => d.(torque := torque)
      case Simulate(dt) => d.(wheel := Step(d.wheel, d.torque, dt)))
  {
    RunAppend(actions, a);
  }

  /** A new wheel pushed with 10 Nm for a tenth of a second. */
  lemma FirstPush()
    ensures Run([Write(10.0), Simulate(0.1)]) == Driven(Wheel(9.95 * 5.729577951308232, 9.95, 35), 10.0)
  {
    var pushed := [Write(10.0)];
    assert Run(pushed) == Driven(Wheel(0.0, 0.0, 35), 10.0) by { assert pushed[..0] == []; }
    var actions := [Write(10.0), Simulate(0.1)];
    assert actions[..1] == pushed;
    StepMotion(Wheel(0.0, 0.0, 35), 10.0, 0.1, 9.95);
    StepHeat(Wheel(0.0, 0.0, 35), 10.0, 0.1);
  }

  lemma RunAppend(actions: seq<Action>, a: Action)
    ensures Run(actions + [a]) ==
      match a
      case Write(torque) => Run(actions).(torque := torque)
      case Simulate(dt) => Run(actions).(wheel := Step(Run(actions).wheel, Run(actions).torque, dt))
  {
    assert (actions + [a])[..|actions|] == actions;
  }

  /** After any run of accepted writes and steps of any length, the wheel is between its
      stops, slower than 137.5 rad/s, and shows 20 to 100 degrees; 25 or more if no step
      was longer than 100 seconds. */
  lemma {:induction false} RunsStayBounded(actions: seq<Action>)
    requires forall a :: a in actions ==> Allowed(a)
    ensures var d := Run(actions);
      && -MAX_TORQUE <= d.torque <= MAX_TORQUE
      && WithinWork(d.wheel.angle, d.wheel.speed)
      && -MAX_ANGLE <= d.wheel.angle <= MAX_ANGLE
      && -137.5 < d.wheel.speed < 137.5
      && 20 <= d.wheel.temperature <= 100
      && ((forall dt :: Simulate(dt) in actions ==> dt <= 100.0) ==> 25 <= d.wheel.temperature)
  {
    if actions != [] {
      var front, last := actions[..|actions| - 1], actions[|actions| - 1];
      assert actions == front + [last];
      RunsStayBounded(front);
      var before := Run(front);
      assert last in actions && Allowed(last);
      if last.Simulate? {
        StepWithinWork(before.wheel, before.torque, last.dt);
        if forall dt :: Simulate(dt) in actions ==> dt <= 100.0 {
          assert Simulate(last.dt) in actions;
          AmbientKept(before.wheel, before.torque, last.dt);
        }
      }
    }
    WorkBoundsSpeed(Run(actions).wheel.angle, Run(actions).wheel.speed);
  }
}
