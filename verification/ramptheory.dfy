/** What the trapezoid promises: limits, no overshoot, arrival in finitely many steps, and a soft arrival. */
module RampTheory {
  import opened Ramp
  import opened RealMath

  predicate SameSign(a: real, b: real) { (a > 0.0 && b > 0.0) || (a < 0.0 && b < 0.0) }

  lemma SignOfProduct(a: real, b: real)
    ensures a * b > 0.0 <==> SameSign(a, b)
  {
  }

  /** Moving, and not towards the target. */
  predicate Away(m: Motion) { m.v != 0.0 && !SameSign(m.Dx(), m.v) }

  /** Square of the speed that a braking distance d absorbs. */
  function Absorbed(a: real, d: real): real { 2.0 * a * d }

  /** The three ways a step can choose the next velocity. */
  datatype Choice = Start | Brake | Speed

  function Chosen(l: Limits, m: Motion): Choice
    requires l.Valid()
  {
    if Abs(m.v) <= EPSILON then Start
    else if Abs(m.v) > l.vMax || !SameSign(m.Dx(), m.v) || Square(m.v) >= Absorbed(l.aMax, Abs(m.Dx())) then Brake
    else Speed
  }

  function Min(a: real, b: real): real { if a < b then a else b }

  lemma QuantumSign(a: real, t: real)
    requires a > 0.0 && t > 0.0
    ensures Times(a, t) > 0.0 && Times(-a, t) == -Times(a, t)
  {
  }

  lemma SquareOfAbs(v: real)
    ensures Square(Abs(v)) == Square(v)
  {
  }

  /** The braking distance reaches as far as d exactly if d cannot absorb the speed with anything to spare. */
  lemma BrakeRule(a: real, d: real, v: real)
    requires a > 0.0
    ensures d <= BrakeDistance(v, a) <==> Square(v) >= Absorbed(a, d)
  {
    var b, c := BrakeDistance(v, a), 2.0 * a;
    assert b * c == v * v;
    Ordered(d, b, c);
  }

  lemma CommandRule(l: Limits, dx: real, v: real)
    requires l.Valid()
    ensures var c, away := Command(l, dx, v), if v > 0.0 then -l.aMax else l.aMax;
            if Abs(v) <= EPSILON then c == (if dx > 0.0 then l.aMax else -l.aMax, false)
            else if Abs(v) > l.vMax || !SameSign(dx, v) || Square(v) >= Absorbed(l.aMax, Abs(dx))
            then c == (away, true)
            else c == (if dx > 0.0 then l.aMax else -l.aMax, false)
  {
    SignOfProduct(dx, v);
    SquareOfAbs(v);
    BrakeRule(l.aMax, Abs(dx), Abs(v));
  }

  /** Braking takes one quantum q off the speed, at most all of it. */
  function Slower(v: real, q: real): real {
    if v > 0.0 then (if v > q then v - q else 0.0) else if v < -q then v + q else 0.0
  }

  /** The next velocity, without products: brake by Q at most to zero, or gain Q at most to vMax. */
  lemma VelocityRule(l: Limits, m: Motion)
    requires l.Valid() && !Near(m)
    ensures l.Q() > 0.0
    ensures NextV(l, m.Dx(), m.v) ==
            if Chosen(l, m) == Brake then Slower(m.v, l.Q())
            else if m.Dx() > 0.0 then Min(m.v + l.Q(), l.vMax) else -Min(l.Q() - m.v, l.vMax)
    ensures Chosen(l, m) != Brake ==> m.Dx() != 0.0
  {
    CommandRule(l, m.Dx(), m.v);
    QuantumSign(l.aMax, l.dt);
    var (accel, braking) := Command(l, m.Dx(), m.v);
    ClipRule(l.vMax, accel, braking, m.v, l.Q());
  }

  /**
   * A motion towards the target within the limit: it gains speed as long as the distance left absorbs more than the
   * speed it has, and brakes from then on - neither sooner nor later.
   */
  lemma BrakesExactly(l: Limits, m: Motion)
    requires l.Valid() && SameSign(m.Dx(), m.v) && EPSILON < Abs(m.v) <= l.vMax && !Next(l, m).done
    ensures var q, w := l.Q(), Next(l, m).v;
            && (w == 0.0 || SameSign(w, m.v))
            && Abs(w) == if Square(m.v) < Absorbed(l.aMax, Abs(m.Dx())) then Min(Abs(m.v) + q, l.vMax)
                         else if Abs(m.v) > q then Abs(m.v) - q else 0.0
  {
    VelocityRule(l, m);
  }

  /** From a near standstill a step goes for the target; away from it, or above the limit, it slows down. */
  lemma StartsAndSlows(l: Limits, m: Motion)
    requires l.Valid() && !Next(l, m).done
    ensures var q, w := l.Q(), Next(l, m).v;
            && (Abs(m.v) <= EPSILON && m.Dx() > 0.0 ==> w == Min(m.v + q, l.vMax))
            && (Abs(m.v) <= EPSILON && m.Dx() < 0.0 ==> -w == Min(q - m.v, l.vMax))
            && (Abs(m.v) > EPSILON && (Abs(m.v) > l.vMax || !SameSign(m.Dx(), m.v)) ==>
                  (w == 0.0 || SameSign(w, m.v)) && Abs(w) == if Abs(m.v) > q then Abs(m.v) - q else 0.0)
  {
    VelocityRule(l, m);
  }

  /** A step arrives exactly if it starts near the target and near rest, or would reach or cross the target. */
  lemma ArrivesExactly(l: Limits, m: Motion)
    requires l.Valid()
    ensures Next(l, m).done <==>
            || (Abs(m.Dx()) <= EPSILON && Abs(m.v) <= EPSILON)
            || (m.Dx() != 0.0 && SameSign(m.Dx(), NextV(l, m.Dx(), m.v))
                && Abs(m.Dx()) <= Times(Abs(NextV(l, m.Dx(), m.v)), l.dt))
    ensures Next(l, m).target == m.target
    ensures Next(l, m).done ==> Next(l, m) == Motion(m.target, m.target, 0.0, 0.0, Done, true)
  {
    var w := NextV(l, m.Dx(), m.v);
    StepDistance(Abs(w), l.dt, 0.0);
  }

  lemma ClipRule(top: real, accel: real, braking: bool, v: real, q: real)
    requires top > 0.0 && accel != 0.0 && q > 0.0
    requires braking ==> v != 0.0 && (v > 0.0 <==> accel < 0.0)
    ensures Clip(top, accel, braking, v, v + if accel > 0.0 then q else -q) ==
            if braking then Slower(v, q) else if accel > 0.0 then Min(v + q, top) else -Min(q - v, top)
  {
  }

  /** Speed stays within the limit, or falls if it started above it. */
  lemma SpeedBound(l: Limits, m: Motion)
    requires l.Valid()
    ensures Abs(Next(l, m).v) <= if Abs(m.v) > l.vMax then Abs(m.v) else l.vMax
  {
    if !Near(m) {
      VelocityRule(l, m);
    }
  }

  lemma {:induction false} SpeedBoundRun(l: Limits, m: Motion, n: nat)
    requires l.Valid()
    ensures Abs(Run(l, m, n).v) <= if Abs(m.v) > l.vMax then Abs(m.v) else l.vMax
    decreases n
  {
    if n > 0 {
      SpeedBound(l, m);
      SpeedBoundRun(l, Next(l, m), n - 1);
    }
  }

  /** A start from a near standstill that is faster than the limit and one quantum, already towards the target. */
  predicate TooFastStart(l: Limits, m: Motion) {
    Abs(m.v) <= EPSILON && (if m.Dx() > 0.0 then m.v else -m.v) > l.vMax + l.Q()
  }

  /** The reported acceleration is the real one, and within the limit except, exactly, for too fast a start. */
  lemma ReportedAcceleration(l: Limits, m: Motion)
    requires l.Valid() && !Next(l, m).done
    ensures Times(Next(l, m).accel, l.dt) == Next(l, m).v - m.v
    ensures Next(l, m).x == m.x + Times(Next(l, m).v, l.dt)
    ensures Abs(Next(l, m).accel) <= l.aMax <==> !TooFastStart(l, m)
    ensures l.vMax >= EPSILON ==> Abs(Next(l, m).accel) <= l.aMax
  {
    VelocityRule(l, m);
    QuotientBound(Next(l, m).v - m.v, l.aMax, l.dt);
  }

  lemma QuotientBound(d: real, a: real, t: real)
    requires t > 0.0
    ensures Times(Rate(d, t), t) == d
    ensures -Times(a, t) <= d <= Times(a, t) <==> -a <= Rate(d, t) <= a
  {
    var k := Rate(d, t);
    assert k * t == d;
    Ordered(k, a, t);
    Ordered(-a, k, t);
    assert -a * t == -(a * t);
  }

  /** Distance covered by a step in the direction d of the target. */
  lemma StepDistance(w: real, t: real, lo: real)
    requires t > 0.0 && w >= lo >= 0.0
    ensures Times(w, t) >= Times(lo, t) >= 0.0
    ensures Times(-w, t) == -Times(w, t)
  {
  }

  /** Never past the target: once the motion is not away from it, it stays so and the distance does not grow. */
  lemma NoOvershoot(l: Limits, m: Motion)
    requires l.Valid() && !Away(m)
    ensures !Away(Next(l, m)) && Abs(Next(l, m).Dx()) <= Abs(m.Dx())
    ensures m.Dx() > 0.0 ==> Next(l, m).Dx() >= 0.0
    ensures m.Dx() < 0.0 ==> Next(l, m).Dx() <= 0.0
  {
    if !Near(m) {
      VelocityRule(l, m);
      var w := NextV(l, m.Dx(), m.v);
      StepDistance(Abs(w), l.dt, 0.0);
    }
  }

  lemma {:induction false} NoOvershootRun(l: Limits, m: Motion, n: nat)
    requires l.Valid() && !Away(m)
    ensures Abs(Run(l, m, n).Dx()) <= Abs(m.Dx())
    ensures m.Dx() > 0.0 ==> Run(l, m, n).Dx() >= 0.0
    ensures m.Dx() < 0.0 ==> Run(l, m, n).Dx() <= 0.0
    decreases n
  {
    if n > 0 {
      NoOvershoot(l, m);
      var m' := Next(l, m);
      NoOvershootRun(l, m', n - 1);
      if m'.Dx() == 0.0 {
        assert Abs(Run(l, m', n - 1).Dx()) <= 0.0;
      }
    }
  }

  // Termination.

  /** How many whole quanta q fit into r. */
  function Whole(r: real, q: real): nat
    requires r >= 0.0 && q > 0.0
  {
    assert r / q >= 0.0;
    (r / q).Floor
  }

  lemma WholeMonotone(r: real, r': real, q: real)
    requires q > 0.0 && 0.0 <= r' <= r
    ensures Whole(r', q) <= Whole(r, q)
    ensures r' <= r - q ==> Whole(r', q) < Whole(r, q)
  {
    var a, b := r / q, r' / q;
    assert a * q == r && b * q == r';
    Cancel(b, a, q);
    if r' <= r - q {
      assert (a - 1.0) * q == r - q;
      Cancel(b, a - 1.0, q);
    }
  }

  lemma Cancel(b: real, a: real, q: real)
    requires q > 0.0 && b * q <= a * q
    ensures b <= a
  {
    assert b > a ==> (b - a) * q > 0.0;
  }

  /** Whole quanta of braking, a started one included. */
  function Brakes(v: real, q: real): nat
    requires q > 0.0
  {
    if v == 0.0 then 0 else Whole(Abs(v), q) + 1
  }

  lemma BrakesDecrease(v: real, w: real, q: real)
    requires q > 0.0 && v != 0.0
    requires (w == 0.0) || (Abs(w) == Abs(v) - q)
    ensures Brakes(w, q) < Brakes(v, q)
  {
    if w != 0.0 {
      WholeMonotone(Abs(v), Abs(w), q);
    }
  }

  /** Least progress of a step that does not brake. */
  function Progress(l: Limits): (p: real)
    requires l.Valid()
    ensures p > 0.0 && l.Q() > 0.0
  {
    QuantumSign(l.aMax, l.dt);
    QuantumSign(Min(l.Q(), l.vMax), l.dt);
    Times(Min(l.Q(), l.vMax), l.dt)
  }

  /** First moving away, then whole progress steps left, then braking steps left. */
  function MeasureAway(m: Motion): nat { if Away(m) then 1 else 0 }

  function MeasureDistance(l: Limits, m: Motion): nat
    requires l.Valid()
  {
    if Away(m) then 0 else Whole(Abs(m.Dx()), Progress(l))
  }

  function MeasureBrakes(l: Limits, m: Motion): nat
    requires l.Valid()
  {
    assert Progress(l) > 0.0;
    Brakes(m.v, l.Q())
  }

  ghost predicate Smaller(l: Limits, m': Motion, m: Motion)
    requires l.Valid()
  {
    || MeasureAway(m') < MeasureAway(m)
    || (MeasureAway(m') == MeasureAway(m) && MeasureDistance(l, m') < MeasureDistance(l, m))
    || (MeasureAway(m') == MeasureAway(m) && MeasureDistance(l, m') == MeasureDistance(l, m)
        && MeasureBrakes(l, m') < MeasureBrakes(l, m))
  }

  lemma AwayStep(l: Limits, m: Motion)
    requires l.Valid() && Away(m) && !Next(l, m).done
    ensures Smaller(l, Next(l, m), m)
  {
    VelocityRule(l, m);
    var m' := Next(l, m);
    assert Progress(l) > 0.0;
    if Away(m') {
      BrakesDecrease(m.v, m'.v, l.Q());
    }
  }

  lemma ApproachStep(l: Limits, m: Motion)
    requires l.Valid() && !Away(m) && !Next(l, m).done
    ensures Smaller(l, Next(l, m), m)
  {
    VelocityRule(l, m);
    NoOvershoot(l, m);
    var m' := Next(l, m);
    var p := Progress(l);
    WholeMonotone(Abs(m.Dx()), Abs(m'.Dx()), p);
    if Chosen(l, m) == Brake {
      BrakesDecrease(m.v, m'.v, l.Q());
    } else {
      StepDistance(Abs(m'.v), l.dt, Min(l.Q(), l.vMax));
      assert Abs(m'.Dx()) <= Abs(m.Dx()) - p;
    }
  }

  lemma StepDecreases(l: Limits, m: Motion)
    requires l.Valid() && !Next(l, m).done
    ensures Smaller(l, Next(l, m), m)
  {
    if Away(m) {
      AwayStep(l, m);
    } else {
      ApproachStep(l, m);
    }
  }

  /** The number of steps to done: a total function, whatever the position, velocity and limits. */
  function StepsToDone(l: Limits, m: Motion): (n: nat)
    requires l.Valid()
    ensures n > 0
    decreases MeasureAway(m), MeasureDistance(l, m), MeasureBrakes(l, m)
  {
    if Next(l, m).done then 1
    else
      StepDecreases(l, m);
      1 + StepsToDone(l, Next(l, m))
  }

  /** Every motion arrives, on target and at rest, and stays there. */
  lemma {:induction false} Arrives(l: Limits, m: Motion, n: nat)
    requires l.Valid() && n >= StepsToDone(l, m)
    ensures var r := Run(l, m, n);
            r.done && r.x == m.target && r.v == 0.0 && r.accel == 0.0
    decreases n
  {
    var m' := Next(l, m);
    if m'.done {
      StaysArrived(l, m', n - 1);
    } else {
      Arrives(l, m', n - 1);
    }
  }

  /** ... and not a step sooner. */
  lemma {:induction false} ArrivesNoSooner(l: Limits, m: Motion, n: nat)
    requires l.Valid() && 0 < n < StepsToDone(l, m)
    ensures !Run(l, m, n).done
    decreases n
  {
    if n > 1 {
      ArrivesNoSooner(l, Next(l, m), n - 1);
    }
  }

  lemma {:induction false} StaysArrived(l: Limits, m: Motion, n: nat)
    requires l.Valid() && m.x == m.target && m.v == 0.0
    ensures Run(l, m, n).x == m.target && Run(l, m, n).v == 0.0
    ensures m.done && m.accel == 0.0 ==> Run(l, m, n).done && Run(l, m, n).accel == 0.0
    ensures Run(l, m, n).target == m.target
    decreases n
  {
    if n > 0 {
      assert Near(m);
      StaysArrived(l, Next(l, m), n - 1);
    }
  }

  // Arrival speed.

  /** Steps fine enough for the speed limit, coarse enough for the threshold. */
  predicate Tuned(l: Limits) { l.Valid() && EPSILON < l.Q() <= l.vMax }

  /** Not away, within the limit, and slow enough for the distance left up to a fixed slack. */
  ghost predicate Arriving(l: Limits, m: Motion) {
    && !Away(m) && Abs(m.v) <= l.vMax
    && Square(m.v) <= Absorbed(l.aMax, Abs(m.Dx())) + 4.0 * Times(l.Q(), l.vMax)
  }

  lemma ProductBound(x: real, y: real, u: real, z: real)
    requires 0.0 <= x <= y && 0.0 <= u <= z
    ensures 0.0 <= Times(x, u) <= Times(y, z)
  {
    assert x * u <= y * u <= y * z;
  }

  /** Speed and distance of one step, signs removed: gaining speed ... */
  lemma SpeedUp(a: real, q: real, top: real, d: real, v: real, w: real)
    requires 0.0 < q <= top && 0.0 <= v <= top && w == Min(v + q, top)
    requires Square(v) <= Absorbed(a, d)
    ensures Square(w) + 2.0 * Times(q, w) <= Absorbed(a, d) + 4.0 * Times(q, top)
  {
    ProductBound(w - v, q, w + v, 2.0 * top);
    assert Times(w - v, w + v) == Square(w) - Square(v);
    assert Times(q, 2.0 * top) == 2.0 * Times(q, top);
    ProductBound(q, q, w, top);
  }

  /** ... braking ... */
  lemma SlowDown(a: real, q: real, top: real, d: real, v: real)
    requires a > 0.0 && q > 0.0 && top > 0.0 && d >= 0.0 && v >= 0.0
    requires Square(v) <= Absorbed(a, d) + 4.0 * Times(q, top)
    ensures Square(Slower(v, q)) + 2.0 * Times(q, Slower(v, q)) <= Absorbed(a, d) + 4.0 * Times(q, top)
  {
    if v > q {
      assert Square(v - q) + 2.0 * Times(q, v - q) == Square(v) - Square(q);
      assert Square(q) >= 0.0;
    } else {
      ProductBound(0.0, a, 0.0, d);
      ProductBound(0.0, q, 0.0, top);
      assert Absorbed(a, d) == 2.0 * Times(a, d);
    }
  }

  /** ... and starting from a near standstill. */
  lemma StartUp(a: real, q: real, top: real, d: real, w: real)
    requires a > 0.0 && 0.0 < q <= top && d >= 0.0 && 0.0 <= w <= top && w <= 2.0 * q
    ensures Square(w) + 2.0 * Times(q, w) <= Absorbed(a, d) + 4.0 * Times(q, top)
  {
    ProductBound(w, 2.0 * q, w, top);
    assert Times(2.0 * q, top) == 2.0 * Times(q, top) && Times(w, w) == Square(w);
    ProductBound(q, q, w, top);
    ProductBound(0.0, a, 0.0, d);
    assert Absorbed(a, d) == 2.0 * Times(a, d);
  }

  /** The key inequality: what the step's speed and the distance it covers may cost together. */
  lemma StepEnergy(l: Limits, m: Motion)
    requires Tuned(l) && Arriving(l, m) && !Near(m)
    ensures var w := Abs(NextV(l, m.Dx(), m.v));
            && w <= l.vMax
            && Square(w) + 2.0 * Times(l.Q(), w) <= Absorbed(l.aMax, Abs(m.Dx())) + 4.0 * Times(l.Q(), l.vMax)
  {
    VelocityRule(l, m);
    SquareOfAbs(m.v);
    var a, q, top, d, v := l.aMax, l.Q(), l.vMax, Abs(m.Dx()), Abs(m.v);
    var w := Abs(NextV(l, m.Dx(), m.v));
    match Chosen(l, m)
    case Start => StartUp(a, q, top, d, w);
    case Brake =>
      assert w == Slower(v, q);
      SlowDown(a, q, top, d, v);
    case Speed =>
      assert w == Min(v + q, top);
      SpeedUp(a, q, top, d, v, w);
  }

  /** Braking absorbs a distance in proportion, and the distance of a step in proportion to its speed. */
  lemma AbsorbedStep(a: real, t: real, d: real, c: real, w: real)
    requires a > 0.0
    ensures Absorbed(a, d - c) == Absorbed(a, d) - Absorbed(a, c)
    ensures Absorbed(a, Times(w, t)) == 2.0 * Times(Times(a, t), w)
    ensures d <= c ==> Absorbed(a, d) <= Absorbed(a, c)
  {
    if d <= c {
      assert a * (c - d) >= 0.0;
    }
  }

  /** The bound survives every step that does not arrive. */
  lemma ArrivingKept(l: Limits, m: Motion)
    requires Tuned(l) && Arriving(l, m) && !Next(l, m).done
    ensures Arriving(l, Next(l, m))
  {
    NoOvershoot(l, m);
    StepEnergy(l, m);
    VelocityRule(l, m);
    var sw := NextV(l, m.Dx(), m.v);
    var w, d := Abs(sw), Abs(m.Dx());
    SquareOfAbs(sw);
    StepDistance(w, l.dt, 0.0);
    AbsorbedStep(l.aMax, l.dt, d, Times(w, l.dt), w);
    var d' := Abs(Next(l, m).Dx());
    assert d == 0.0 || d' == d - Times(w, l.dt);
    ProductBound(l.Q(), l.Q(), w, l.vMax);
    assert Absorbed(l.aMax, 0.0) == 0.0;
  }

  /** A crossing step: d is what was left, v the speed before it, w the speed it would have had. */
  lemma SnapCrossing(a: real, t: real, top: real, d: real, v: real, w: real)
    requires a > 0.0 && t > 0.0 && Times(a, t) > 0.0 && 0.0 <= w <= top && 0.0 <= d <= Times(w, t)
    requires v <= Absorbed(a, d) + 4.0 * Times(Times(a, t), top)
    requires Square(w) + 2.0 * Times(Times(a, t), w) <= Absorbed(a, d) + 4.0 * Times(Times(a, t), top)
    ensures v <= 6.0 * Times(Times(a, t), top) && Square(w) <= 4.0 * Times(Times(a, t), top)
  {
    AbsorbedStep(a, t, d, Times(w, t), w);
    ProductBound(Times(a, t), Times(a, t), w, top);
  }

  /** The speed a snap throws away: what the motion had, and what the step would have given it. */
  lemma SnapSpeed(l: Limits, m: Motion)
    requires Tuned(l) && Arriving(l, m) && Next(l, m).done
    ensures Square(m.v) <= 6.0 * Times(l.Q(), l.vMax)
    ensures !Near(m) ==> Square(NextV(l, m.Dx(), m.v)) <= 4.0 * Times(l.Q(), l.vMax)
  {
    if Near(m) {
      ProductBound(Abs(m.v), l.Q(), Abs(m.v), l.vMax);
      assert Times(Abs(m.v), Abs(m.v)) == Square(m.v);
    } else {
      StepEnergy(l, m);
      VelocityRule(l, m);
      var sw := NextV(l, m.Dx(), m.v);
      SquareOfAbs(sw);
      CrossingDistance(m, sw, l.dt);
      SnapCrossing(l.aMax, l.dt, l.vMax, Abs(m.Dx()), Square(m.v), Abs(sw));
    }
  }

  lemma CrossingDistance(m: Motion, sw: real, t: real)
    requires t > 0.0 && Crosses(m, m.x + Times(sw, t))
    ensures Abs(m.Dx()) <= Times(Abs(sw), t)
  {
    StepDistance(Abs(sw), t, 0.0);
  }

  lemma ArrivedIsArriving(l: Limits, m: Motion)
    requires Tuned(l) && m.v == 0.0
    ensures Arriving(l, m)
  {
    ProductBound(0.0, l.aMax, 0.0, Abs(m.Dx()));
    ProductBound(0.0, l.Q(), 0.0, l.vMax);
    assert Absorbed(l.aMax, Abs(m.Dx())) == 2.0 * Times(l.aMax, Abs(m.Dx())) && Square(0.0) == 0.0;
  }

  /** A motion going away brakes: while it is not done it goes on so or has just turned, slower than one quantum. */
  lemma AwayEnds(l: Limits, m: Motion)
    requires Tuned(l) && Away(m) && !Next(l, m).done
    ensures Away(Next(l, m)) || Arriving(l, Next(l, m))
  {
    VelocityRule(l, m);
    var m' := Next(l, m);
    if !Away(m') {
      assert Abs(m'.v) <= l.Q();
      SlowIsArriving(l, m');
    }
  }

  lemma SlowIsArriving(l: Limits, m: Motion)
    requires Tuned(l) && !Away(m) && Abs(m.v) <= l.Q()
    ensures Arriving(l, m)
  {
    SquareOfAbs(m.v);
    ProductBound(Abs(m.v), l.Q(), Abs(m.v), l.vMax);
    ProductBound(0.0, l.aMax, 0.0, Abs(m.Dx()));
    assert Times(Abs(m.v), Abs(m.v)) == Square(Abs(m.v));
    assert Absorbed(l.aMax, Abs(m.Dx())) == 2.0 * Times(l.aMax, Abs(m.Dx()));
  }

  /** Going away, only a motion at a near standstill snaps. */
  lemma AwaySnap(l: Limits, m: Motion)
    requires Tuned(l) && Away(m) && Next(l, m).done
    ensures Square(m.v) <= 6.0 * Times(l.Q(), l.vMax)
  {
    if !Near(m) {
      VelocityRule(l, m);
      StepDistance(Abs(NextV(l, m.Dx(), m.v)), l.dt, 0.0);
    }
    assert Abs(m.v) <= EPSILON;
    SquareOfAbs(m.v);
    ProductBound(Abs(m.v), l.Q(), Abs(m.v), l.vMax);
    assert Times(Abs(m.v), Abs(m.v)) == Square(Abs(m.v));
  }

  /** What a step makes of a motion that goes away or arrives. */
  lemma ArrivalStep(l: Limits, m: Motion)
    requires Tuned(l) && (Away(m) || Arriving(l, m))
    ensures Away(Next(l, m)) || Arriving(l, Next(l, m))
    ensures Arriving(l, m) ==> Arriving(l, Next(l, m))
    ensures Next(l, m).done ==> Square(m.v) <= 6.0 * Times(l.Q(), l.vMax)
  {
    if Next(l, m).done {
      ArrivedIsArriving(l, Next(l, m));
      if Away(m) {
        AwaySnap(l, m);
      } else {
        SnapSpeed(l, m);
      }
    } else if Away(m) {
      AwayEnds(l, m);
    } else {
      ArrivingKept(l, m);
    }
  }

  /** Over a whole run from rest, or going away from the target at any speed, every snap is a soft one. */
  lemma {:induction false} ArrivalSpeed(l: Limits, m: Motion, n: nat)
    requires Tuned(l) && (Away(m) || Arriving(l, m))
    ensures Away(Run(l, m, n)) || Arriving(l, Run(l, m, n))
    ensures Arriving(l, m) ==> Arriving(l, Run(l, m, n))
    ensures Next(l, Run(l, m, n)).done ==> Square(Run(l, m, n).v) <= 6.0 * Times(l.Q(), l.vMax)
    decreases n
  {
    ArrivalStep(l, m);
    if n > 0 {
      ArrivalSpeed(l, Next(l, m), n - 1);
    }
  }

  /** The phase label: Cruise exactly if the velocity stays; else whether the step ends faster in its direction. */
  lemma PhaseTells(l: Limits, m: Motion)
    requires l.Valid() && !Next(l, m).done
    ensures var m' := Next(l, m);
            && (m'.phase == Cruise <==> m'.v == m.v)
            && (m'.v != m.v && m'.v > 0.0 ==> m'.phase == if m'.v > m.v then Accel else Decel)
            && (m'.v != m.v && m'.v < 0.0 ==> m'.phase == if m'.v < m.v then Accel else Decel)
  {
    ReportedAcceleration(l, m);
    SignOfRate(Next(l, m).accel, l.dt);
  }

  lemma SignOfRate(a: real, t: real)
    requires t > 0.0
    ensures (Times(a, t) > 0.0 <==> a > 0.0) && (Times(a, t) == 0.0 <==> a == 0.0)
  {
  }

  /** The phase label is not symmetric: braking to a standstill reads Accel from the right, Decel from the left. */
  lemma StandstillLabel(l: Limits, m: Motion)
    requires l.Valid() && !Next(l, m).done && Next(l, m).v == 0.0 && m.v != 0.0
    ensures Next(l, m).phase == if m.v > 0.0 then Accel else Decel
  {
    ReportedAcceleration(l, m);
    var a := Next(l, m).accel;
    if a >= 0.0 {
      assert a * l.dt >= 0.0;
    } else {
      assert (-a) * l.dt > 0.0;
    }
  }
}
