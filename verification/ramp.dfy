/** The trapezoidal trajectory generator (App/Algorithm/Src/algo_ramp.c), over the reals. */
module Ramp {
  import opened RealMath

  /** Snap-to-target threshold. */
  const EPSILON: real := 0.000001

  datatype Phase = Accel | Cruise | Decel | Done

  datatype Limits = Limits(dt: real, vMax: real, aMax: real) {
    predicate Valid() { dt > 0.0 && vMax > 0.0 && aMax > 0.0 }

    /** Largest speed change of one step. */
    function Q(): real { Times(aMax, dt) }
  }

  datatype Motion = Motion(target: real, x: real, v: real, accel: real, phase: Phase, done: bool) {
    function Dx(): real { target - x }
  }

  function Arrived(m: Motion): Motion { Motion(m.target, m.target, 0.0, 0.0, Done, true) }

  predicate Near(m: Motion) { Abs(m.Dx()) <= EPSILON && Abs(m.v) <= EPSILON }

  function Rate(change: real, time: real): real
    requires time > 0.0
  {
    change / time
  }

  function BrakeDistance(speed: real, aMax: real): real
    requires aMax > 0.0
  {
    speed * speed / (2.0 * aMax)
  }

  /** Commanded acceleration, and whether it is a braking command. */
  function Command(l: Limits, dx: real, v: real): (real, bool)
    requires l.Valid()
  {
    if Abs(v) <= EPSILON then (if dx > 0.0 then l.aMax else -l.aMax, false)
    else if Abs(v) > l.vMax then (if v > 0.0 then -l.aMax else l.aMax, true)
    else if !(dx * v > 0.0) then (if v > 0.0 then -l.aMax else l.aMax, true)
    else if Abs(dx) <= BrakeDistance(Abs(v), l.aMax) then (if v > 0.0 then -l.aMax else l.aMax, true)
    else (if dx > 0.0 then l.aMax else -l.aMax, false)
  }

  /** Braking stops at zero, and no command pushes the speed beyond the limit. */
  function Clip(vMax: real, accel: real, braking: bool, v: real, w: real): real {
    var u := if braking && ((v > 0.0 && w < 0.0) || (v < 0.0 && w > 0.0)) then 0.0 else w;
    if u > vMax && accel > 0.0 then vMax
    else if u < -vMax && accel < 0.0 then -vMax
    else u
  }

  function NextV(l: Limits, dx: real, v: real): real
    requires l.Valid()
  {
    var (accel, braking) := Command(l, dx, v);
    Clip(l.vMax, accel, braking, v, v + Times(accel, l.dt))
  }

  predicate Crosses(m: Motion, nextX: real) {
    (m.Dx() > 0.0 && nextX >= m.target) || (m.Dx() < 0.0 && nextX <= m.target)
  }

  function PhaseOf(accel: real, v: real): Phase {
    if accel == 0.0 then Cruise else if (accel > 0.0) == (v > 0.0) then Accel else Decel
  }

  /** One step of the generator. */
  function Next(l: Limits, m: Motion): Motion
    requires l.Valid()
  {
    if Near(m) then Arrived(m)
    else
      var v := NextV(l, m.Dx(), m.v);
      var x := m.x + Times(v, l.dt);
      if Crosses(m, x) then Arrived(m)
      else
        var accel := Rate(v - m.v, l.dt);
        Motion(m.target, x, v, accel, PhaseOf(accel, v), false)
  }

  function Run(l: Limits, m: Motion, n: nat): Motion
    requires l.Valid()
    decreases n
  {
    if n == 0 then m else Run(l, Next(l, m), n - 1)
  }

  class TrapezoidRamp {
    var ts: real
    var vMax: real
    var aMax: real
    var target: real
    var current: real
    var velocity: real
    var acceleration: real
    var phase: Phase
    var done: bool

    function LimitsOf(): Limits reads this { Limits(ts, vMax, aMax) }
    function View(): Motion reads this { Motion(target, current, velocity, acceleration, phase, done) }
    ghost predicate Valid() reads this { LimitsOf().Valid() }

    constructor (ts: real, rate: real, accelMax: real, target: real, initial: real)
      requires ts > 0.0 && rate > 0.0 && accelMax > 0.0
      ensures Valid() && LimitsOf() == Limits(ts, rate, accelMax)
      ensures View() == Motion(target, initial, 0.0, 0.0, Accel, false)
    {
      this.ts, vMax, aMax := ts, rate, accelMax;
      this.target, current, velocity, acceleration := target, initial, 0.0, 0.0;
      phase, done := Accel, false;
    }

    /** Replan in motion: any position and signed velocity, towards a new target. */
    method Plan(target: real, current: real, velocity: real)
      requires Valid()
      modifies this
      ensures Valid() && LimitsOf() == old(LimitsOf())
      ensures View() == Motion(target, current, velocity, 0.0, Accel, false)
    {
      this.target := target;
      this.current := current;
      phase := Accel;
      done := false;
      this.velocity := velocity;
      acceleration := 0.0;
    }

    /** New limits at run time; anything not positive is refused. */
    method SetLimits(vMax: real, aMax: real) returns (ok: bool)
      requires Valid()
      modifies this
      ensures Valid() && View() == old(View())
      ensures ok == (vMax > 0.0 && aMax > 0.0)
      ensures LimitsOf() == if ok then Limits(ts, vMax, aMax) else old(LimitsOf())
    {
      if vMax <= 0.0 || aMax <= 0.0 {
        return false;
      }
      this.vMax := vMax;
      this.aMax := aMax;
      ok := true;
    }

    method Arrive()
      modifies this
      ensures LimitsOf() == old(LimitsOf()) && View() == Arrived(old(View()))
    {
      current := target;
      velocity := 0.0;
      acceleration := 0.0;
      done := true;
      phase := Done;
    }

    /** The command branch of a step. */
    method Choose(dx: real, v: real) returns (accel: real, braking: bool)
      requires Valid()
      ensures (accel, braking) == Command(LimitsOf(), dx, v)
    {
      var vAbs := Abs(v);
      var brakeDistance := BrakeDistance(vAbs, aMax);
      var movingTowardTarget := dx * v > 0.0;
      braking := false;
      if vAbs <= EPSILON {
        accel := if dx > 0.0 then aMax else -aMax;
      } else if vAbs > vMax {
        accel := if v > 0.0 then -aMax else aMax;
        braking := true;
      } else if !movingTowardTarget {
        accel := if v > 0.0 then -aMax else aMax;
        braking := true;
      } else if Abs(dx) <= brakeDistance {
        accel := if v > 0.0 then -aMax else aMax;
        braking := true;
      } else {
        accel := if dx > 0.0 then aMax else -aMax;
      }
    }

    /** The velocity after a step: braking stops at zero, and no command pushes beyond the limit. */
    method NextVelocity(dx: real, v: real) returns (w: real)
      requires Valid()
      ensures w == NextV(LimitsOf(), dx, v)
    {
      var accel, braking := Choose(dx, v);
      w := v + Times(accel, ts);
      if braking && ((v > 0.0 && w < 0.0) || (v < 0.0 && w > 0.0)) {
        w := 0.0;
      }
      if w > vMax && accel > 0.0 {
        w := vMax;
      } else if w < -vMax && accel < 0.0 {
        w := -vMax;
      }
    }

    method Step() returns (y: real)
      requires Valid()
      modifies this
      ensures Valid() && LimitsOf() == old(LimitsOf())
      ensures View() == Next(old(LimitsOf()), old(View()))
      ensures y == current
    {
      var x, v := current, velocity;
      var dx := target - x;
      if Abs(dx) <= EPSILON && Abs(v) <= EPSILON {
        Arrive();
        return current;
      }
      var nextV := NextVelocity(dx, v);
      var nextX := x + Times(nextV, ts);
      if (dx > 0.0 && nextX >= target) || (dx < 0.0 && nextX <= target) {
        Arrive();
        return current;
      }
      var actual := Rate(nextV - v, ts);
      current := nextX;
      velocity := nextV;
      acceleration := actual;
      done := false;
      phase := PhaseOf(actual, nextV);
      y := current;
    }
  }
}
