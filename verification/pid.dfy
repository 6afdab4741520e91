/** The two forms of the PID controller (App/Algorithm/Src/algo_pid.c), over the reals. */
module Pid {
  import opened RealMath

  datatype AntiWindup = NoWindup | ClampBack | BackCalc

  /** Gains already multiplied by the sample time, and the limits. */
  datatype Config = Config(kp: real, kiT: real, kdInvT: real, weightP: real, weightD: real,
                           outMin: real, outMax: real, integralMin: real, integralMax: real,
                           antiWindup: AntiWindup, backCalc: real,
                           filtered: bool, filterCoeff: real, derivOnMeasurement: bool,
                           rateLimited: bool, rateStep: real) {
    predicate Valid() { outMin < outMax && integralMin < integralMax && (rateLimited ==> rateStep > 0.0) }
  }

  datatype State = State(integral: real, prevError: real, prevSetpoint: real, prevMeasurement: real,
                         prevOutput: real, prevDout: real, derivState: real, primed: bool)

  const RESET := State(0.0, 0.0, 0.0, 0.0, 0.0, 0.0, 0.0, false)

  datatype Input = Input(sp: real, pv: real) {
    function Error(): real { sp - pv }
  }

  function Clamp(x: real, lo: real, hi: real): real { if x < lo then lo else if x > hi then hi else x }

  function Deriv(c: Config, s: State, x: Input): real {
    if c.derivOnMeasurement then Times(c.kdInvT, s.prevMeasurement - x.pv)
    else Times(c.kdInvT, Times(c.weightD, x.sp - s.prevSetpoint) - (x.pv - s.prevMeasurement))
  }

  function FilterD(c: Config, s: State, raw: real): real {
    if c.filtered then Times(c.filterCoeff, raw) + Times(1.0 - c.filterCoeff, s.derivState) else raw
  }

  function RateLimit(c: Config, s: State, out: real): real {
    if !c.rateLimited then out
    else if out - s.prevOutput > c.rateStep then s.prevOutput + c.rateStep
    else if out - s.prevOutput < -c.rateStep then s.prevOutput - c.rateStep
    else out
  }

  function Prime(s: State, x: Input): State {
    if s.primed then s
    else s.(prevError := x.Error(), prevSetpoint := x.sp, prevMeasurement := x.pv, prevDout := 0.0, primed := true)
  }

  function IntegralAfter(c: Config, integral: real, raw: real, sat: real): real {
    match c.antiWindup
    case BackCalc => Clamp(integral + Times(c.backCalc, sat - raw), c.integralMin, c.integralMax)
    case ClampBack => if raw != sat then Clamp(integral - (raw - sat), c.integralMin, c.integralMax) else integral
    case NoWindup => integral
  }

  // Quantities of one step from a primed state.

  function DOut(c: Config, s: State, x: Input): real { FilterD(c, s, Deriv(c, s, x)) }

  function Integrated(c: Config, s: State, x: Input): real { s.integral + Times(c.kiT, x.Error()) }

  function Proportional(c: Config, x: Input): real { Times(c.kp, Times(c.weightP, x.sp) - x.pv) }

  function Remember(c: Config, s: State, x: Input, integral: real, out: real): State {
    var d := DOut(c, s, x);
    State(integral, x.Error(), x.sp, x.pv, out, d, if c.filtered then d else s.derivState, true)
  }

  function PosRaw(c: Config, s: State, x: Input): real {
    Proportional(c, x) + Clamp(Integrated(c, s, x), c.integralMin, c.integralMax) + DOut(c, s, x)
  }

  function PosStep(c: Config, s0: State, x: Input): State {
    var s := Prime(s0, x);
    var raw := PosRaw(c, s, x);
    var sat := Clamp(raw, c.outMin, c.outMax);
    var integral := Clamp(Integrated(c, s, x), c.integralMin, c.integralMax);
    Remember(c, s, x, IntegralAfter(c, integral, raw, sat), RateLimit(c, s, sat))
  }

  function IncRaw(c: Config, s: State, x: Input): real {
    s.prevOutput + Times(c.kp, x.Error() - s.prevError) + Times(c.kiT, x.Error()) + (DOut(c, s, x) - s.prevDout)
  }

  function IncStep(c: Config, s0: State, x: Input): State {
    var s := Prime(s0, x);
    Remember(c, s, x, s.integral, RateLimit(c, s, Clamp(IncRaw(c, s, x), c.outMin, c.outMax)))
  }

  class Controller {
    const c: Config
    var integral: real
    var prevError: real
    var prevSetpoint: real
    var prevMeasurement: real
    var prevOutput: real
    var prevDout: real
    var derivState: real
    var primed: bool

    function View(): State
      reads this
    {
      State(integral, prevError, prevSetpoint, prevMeasurement, prevOutput, prevDout, derivState, primed)
    }

    constructor (c: Config)
      requires c.Valid()
      ensures View() == RESET && this.c == c
    {
      this.c := c;
      integral, prevError, prevSetpoint, prevMeasurement := 0.0, 0.0, 0.0, 0.0;
      prevOutput, prevDout, derivState, primed := 0.0, 0.0, 0.0, false;
    }

    method Reset()
      modifies this
      ensures View() == RESET
    {
      integral, prevError, prevSetpoint, prevMeasurement := 0.0, 0.0, 0.0, 0.0;
      prevOutput, prevDout, derivState, primed := 0.0, 0.0, 0.0, false;
    }

    /** The first input becomes the history, so that it gives no kick. */
    method PrimeWith(x: Input)
      modifies this
      ensures View() == Prime(old(View()), x)
    {
      if primed {
        return;
      }
      prevError := x.sp - x.pv;
      prevSetpoint := x.sp;
      prevMeasurement := x.pv;
      prevDout := 0.0;
      primed := true;
    }

    method Filter(raw: real) returns (d: real)
      modifies this`derivState
      ensures d == FilterD(c, old(View()), raw)
      ensures derivState == if c.filtered then d else old(derivState)
    {
      if !c.filtered {
        return raw;
      }
      d := Times(c.filterCoeff, raw) + Times(1.0 - c.filterCoeff, derivState);
      derivState := d;
    }

    method Store(x: Input, out: real, d: real)
      modifies this`prevError, this`prevSetpoint, this`prevMeasurement, this`prevOutput, this`prevDout
      ensures prevError == x.Error() && prevSetpoint == x.sp && prevMeasurement == x.pv
      ensures prevOutput == out && prevDout == d
    {
      prevError := x.sp - x.pv;
      prevSetpoint := x.sp;
      prevMeasurement := x.pv;
      prevOutput := out;
      prevDout := d;
    }

    method StepPositional(x: Input) returns (out: real)
      modifies this
      ensures View() == PosStep(c, old(View()), x) && out == prevOutput
    {
      PrimeWith(x);
      ghost var s := View();
      var err := x.sp - x.pv;
      integral := integral + Times(c.kiT, err);
      integral := Clamp(integral, c.integralMin, c.integralMax);
      var d := Filter(Deriv(c, View(), x));
      assert d == DOut(c, s, x);
      var raw := Times(c.kp, Times(c.weightP, x.sp) - x.pv) + integral + d;
      var sat := Clamp(raw, c.outMin, c.outMax);
      integral := IntegralAfter(c, integral, raw, sat);
      out := RateLimit(c, View(), sat);
      Store(x, out, d);
    }

    method StepIncremental(x: Input) returns (out: real)
      modifies this
      ensures View() == IncStep(c, old(View()), x) && out == prevOutput
    {
      PrimeWith(x);
      ghost var s := View();
      var err := x.sp - x.pv;
      var dp := Times(c.kp, err - prevError);
      var di := Times(c.kiT, err);
      var d := Filter(Deriv(c, View(), x));
      assert d == DOut(c, s, x);
      out := prevOutput + dp + di + (d - prevDout);
      out := Clamp(out, c.outMin, c.outMax);
      out := RateLimit(c, View(), out);
      Store(x, out, d);
    }
  }

  // Runs.

  function RunPos(c: Config, s: State, xs: seq<Input>): State
    decreases |xs|
  {
    if xs == [] then s else PosStep(c, RunPos(c, s, xs[..|xs| - 1]), xs[|xs| - 1])
  }

  function RunInc(c: Config, s: State, xs: seq<Input>): State
    decreases |xs|
  {
    if xs == [] then s else IncStep(c, RunInc(c, s, xs[..|xs| - 1]), xs[|xs| - 1])
  }

  predicate Between(x: real, lo: real, hi: real) { lo <= x <= hi }

  /** Nothing limits a positional step: neither the integral, nor the output, nor its rate. */
  predicate PosFree(c: Config, s0: State, x: Input) {
    var s := Prime(s0, x);
    && Between(Integrated(c, s, x), c.integralMin, c.integralMax)
    && Between(PosRaw(c, s, x), c.outMin, c.outMax)
    && (c.rateLimited ==> Between(PosRaw(c, s, x) - s.prevOutput, -c.rateStep, c.rateStep))
  }

  predicate IncFree(c: Config, s0: State, x: Input) {
    var s := Prime(s0, x);
    && Between(IncRaw(c, s, x), c.outMin, c.outMax)
    && (c.rateLimited ==> Between(IncRaw(c, s, x) - s.prevOutput, -c.rateStep, c.rateStep))
  }

  /** Nothing limits either form along the run. */
  ghost predicate Free(c: Config, xs: seq<Input>) {
    forall i :: 0 <= i < |xs| ==>
      PosFree(c, RunPos(c, RESET, xs[..i]), xs[i]) && IncFree(c, RunInc(c, RESET, xs[..i]), xs[i])
  }

  /** The states of the two forms side by side, e0 the first error. */
  ghost predicate Linked(c: Config, p: State, q: State, e0: real) {
    && p.primed && q.primed && p.prevError == q.prevError && p.prevSetpoint == q.prevSetpoint
    && p.prevMeasurement == q.prevMeasurement && p.prevDout == q.prevDout && p.derivState == q.derivState
    && q.prevOutput == p.integral + p.prevDout + Times(c.kp, p.prevError - e0)
  }

  lemma Differences(k: real, a: real, b: real, e: real)
    ensures Times(k, a - b) + Times(k, b - e) == Times(k, a - e)
    ensures Times(k, a - a) == 0.0
  {
  }

  /** Back-calculation over an output that is not limited changes nothing. */
  lemma NoWindupNoChange(c: Config, integral: real, raw: real)
    requires Between(integral, c.integralMin, c.integralMax)
    ensures IntegralAfter(c, integral, raw, raw) == integral
  {
    Differences(c.backCalc, raw, raw, raw);
  }

  lemma LinkedStep(c: Config, p: State, q: State, e0: real, x: Input)
    requires Linked(c, p, q, e0) && PosFree(c, p, x) && IncFree(c, q, x)
    ensures Linked(c, PosStep(c, p, x), IncStep(c, q, x), e0)
    ensures PosStep(c, p, x).prevOutput == PosRaw(c, p, x)
  {
    assert DOut(c, p, x) == DOut(c, q, x);
    NoWindupNoChange(c, Integrated(c, p, x), PosRaw(c, p, x));
    Differences(c.kp, x.Error(), p.prevError, e0);
  }

  lemma PrimedStep(c: Config, s: State, x: Input)
    ensures PosStep(c, s, x) == PosStep(c, Prime(s, x), x) && IncStep(c, s, x) == IncStep(c, Prime(s, x), x)
    ensures PosFree(c, s, x) == PosFree(c, Prime(s, x), x) && IncFree(c, s, x) == IncFree(c, Prime(s, x), x)
  {
  }

  lemma {:induction false} RunLinked(c: Config, xs: seq<Input>)
    requires xs != [] && Free(c, xs)
    ensures Linked(c, RunPos(c, RESET, xs), RunInc(c, RESET, xs), xs[0].Error())
    ensures RunPos(c, RESET, xs).prevOutput
            == Proportional(c, xs[|xs| - 1]) + RunPos(c, RESET, xs).integral + RunPos(c, RESET, xs).prevDout
    ensures RunPos(c, RESET, xs).prevError == xs[|xs| - 1].Error()
    decreases |xs|
  {
    var n := |xs| - 1;
    var x := xs[n];
    var p, q := RunPos(c, RESET, xs[..n]), RunInc(c, RESET, xs[..n]);
    assert PosFree(c, p, x) && IncFree(c, q, x);
    if n == 0 {
      PrimedStep(c, RESET, x);
      Differences(c.kp, x.Error(), x.Error(), x.Error());
      p, q := Prime(RESET, x), Prime(RESET, x);
    } else {
      forall i | 0 <= i < |xs[..n]|
        ensures PosFree(c, RunPos(c, RESET, xs[..n][..i]), xs[..n][i])
        ensures IncFree(c, RunInc(c, RESET, xs[..n][..i]), xs[..n][i])
      {
        assert xs[..n][..i] == xs[..i];
      }
      RunLinked(c, xs[..n]);
    }
    LinkedStep(c, p, q, xs[0].Error(), x);
    NoWindupNoChange(c, Integrated(c, p, x), PosRaw(c, p, x));
  }

  /**
   * The two forms agree along every unlimited run, filter or not: they differ by the proportional part of the first
   * error and, for a setpoint weight below one, of the setpoint held back.
   */
  lemma FormsAgree(c: Config, xs: seq<Input>)
    requires xs != [] && Free(c, xs)
    ensures RunInc(c, RESET, xs).prevOutput
            == RunPos(c, RESET, xs).prevOutput - Times(c.kp, xs[0].Error())
               + Times(c.kp, Times(1.0 - c.weightP, xs[|xs| - 1].sp))
    ensures c.weightP == 1.0 ==>
              RunInc(c, RESET, xs).prevOutput == RunPos(c, RESET, xs).prevOutput - Times(c.kp, xs[0].Error())
  {
    RunLinked(c, xs);
    LinkedOutputs(c, RunPos(c, RESET, xs), RunInc(c, RESET, xs), xs[|xs| - 1], xs[0].Error());
  }

  lemma LinkedOutputs(c: Config, p: State, q: State, x: Input, e0: real)
    requires Linked(c, p, q, e0) && p.prevError == x.Error()
    requires p.prevOutput == Proportional(c, x) + p.integral + p.prevDout
    ensures q.prevOutput == p.prevOutput - Times(c.kp, e0) + Times(c.kp, Times(1.0 - c.weightP, x.sp))
    ensures c.weightP == 1.0 ==> q.prevOutput == p.prevOutput - Times(c.kp, e0)
  {
    Weighted(c, x, e0);
    Combine(p.prevOutput, q.prevOutput, Proportional(c, x), p.integral, p.prevDout, Times(c.kp, p.prevError - e0),
            Times(c.kp, e0), Times(c.kp, Times(1.0 - c.weightP, x.sp)));
  }

  lemma Combine(pos: real, inc: real, prop: real, i: real, d: real, rise: real, start: real, held: real)
    requires pos == prop + i + d && inc == i + d + rise && rise == prop - start + held
    ensures inc == pos - start + held
  {
  }

  lemma Weighted(c: Config, x: Input, e0: real)
    ensures Times(c.kp, x.Error() - e0)
            == Proportional(c, x) - Times(c.kp, e0) + Times(c.kp, Times(1.0 - c.weightP, x.sp))
    ensures c.weightP == 1.0 ==> Times(c.kp, Times(1.0 - c.weightP, x.sp)) == 0.0
  {
  }

  /** One rate step from zero, where a controller starts, reaches the output range, if the rate is limited at all. */
  predicate RangeInReach(c: Config) { c.rateLimited ==> c.outMin <= c.rateStep && -c.rateStep <= c.outMax }

  lemma {:induction false} OutputsInReach(c: Config, xs: seq<Input>)
    requires c.Valid() && xs != [] && RangeInReach(c)
    ensures Between(RunPos(c, RESET, xs).prevOutput, c.outMin, c.outMax)
    ensures Between(RunInc(c, RESET, xs).prevOutput, c.outMin, c.outMax)
    decreases |xs|
  {
    if |xs| > 1 {
      OutputsInReach(c, xs[..|xs| - 1]);
    }
  }

  /** Every output of every run is within the limits, in both forms, exactly if the range is in reach. */
  lemma OutputsWithinLimits(c: Config)
    requires c.Valid()
    ensures RangeInReach(c) <==>
            forall xs: seq<Input> :: xs != [] ==>
              && Between(RunPos(c, RESET, xs).prevOutput, c.outMin, c.outMax)
              && Between(RunInc(c, RESET, xs).prevOutput, c.outMin, c.outMax)
  {
    if RangeInReach(c) {
      forall xs: seq<Input> | xs != []
        ensures Between(RunPos(c, RESET, xs).prevOutput, c.outMin, c.outMax)
        ensures Between(RunInc(c, RESET, xs).prevOutput, c.outMin, c.outMax)
      {
        OutputsInReach(c, xs);
      }
    } else {
      var xs := [Input(0.0, 0.0)];
      FirstOutputOutside(c, xs[0]);
      assert xs[..|xs| - 1] == [];
      assert RunPos(c, RESET, xs) == PosStep(c, RESET, xs[0]);
      assert !Between(RunPos(c, RESET, xs).prevOutput, c.outMin, c.outMax);
    }
  }

  /** Out of reach, the very first output of either form is outside, whatever the input. */
  lemma FirstOutputOutside(c: Config, x: Input)
    requires c.Valid() && !RangeInReach(c)
    ensures !Between(PosStep(c, RESET, x).prevOutput, c.outMin, c.outMax)
    ensures !Between(IncStep(c, RESET, x).prevOutput, c.outMin, c.outMax)
  {
  }

  /** The integral of every run is within its own limits, whatever the anti-windup does. */
  lemma {:induction false} IntegralWithinLimits(c: Config, xs: seq<Input>)
    requires c.Valid() && xs != []
    ensures Between(RunPos(c, RESET, xs).integral, c.integralMin, c.integralMax)
  {
    var p, x := RunPos(c, RESET, xs[..|xs| - 1]), xs[|xs| - 1];
    assert RunPos(c, RESET, xs) == PosStep(c, p, x);
  }

  /** With a rate limit no output is further than one rate step from the one before. */
  lemma RateBounded(c: Config, s: State, x: Input)
    requires c.Valid() && c.rateLimited
    ensures Between(PosStep(c, s, x).prevOutput - s.prevOutput, -c.rateStep, c.rateStep)
    ensures Between(IncStep(c, s, x).prevOutput - s.prevOutput, -c.rateStep, c.rateStep)
  {
  }

  /**
   * What the anti-windup is for: with the integral it leaves, the raw output would have been the limit itself, or,
   * for back-calculation, would have missed it by the part the coefficient leaves over - unless the integral runs
   * into its own limits.
   */
  lemma AntiWindupPullsBack(c: Config, integral: real, raw: real, sat: real)
    requires c.integralMin < IntegralAfter(c, integral, raw, sat) < c.integralMax
    ensures var pulled := raw + (IntegralAfter(c, integral, raw, sat) - integral);
            match c.antiWindup
            case ClampBack => pulled == sat
            case BackCalc => pulled - sat == Times(1.0 - c.backCalc, raw - sat)
            case NoWindup => pulled == raw
  {
    if c.antiWindup == BackCalc {
      assert Times(c.backCalc, sat - raw) == -Times(c.backCalc, raw - sat);
    }
  }

  // What the controller computes, from the inputs alone.

  function ErrorSum(xs: seq<Input>): real
    decreases |xs|
  {
    if xs == [] then 0.0 else ErrorSum(xs[..|xs| - 1]) + (xs[|xs| - 1].sp - xs[|xs| - 1].pv)
  }

  /** The rise that the derivative term sees between two inputs. */
  function Rise(c: Config, a: Input, b: Input): real {
    if c.derivOnMeasurement then a.pv - b.pv else Times(c.weightD, b.sp - a.sp) + a.pv - b.pv
  }

  /** The derivative term: of the last rise, or smoothed over all of them; the first input gives none. */
  function Derivative(c: Config, xs: seq<Input>): real
    decreases |xs|
  {
    if |xs| <= 1 then 0.0
    else
      var raw := Times(c.kdInvT, Rise(c, xs[|xs| - 2], xs[|xs| - 1]));
      if c.filtered
      then Derivative(c, xs[..|xs| - 1]) + Times(c.filterCoeff, raw - Derivative(c, xs[..|xs| - 1]))
      else raw
  }

  /** A state that has seen these inputs. */
  ghost predicate Seen(c: Config, s: State, xs: seq<Input>)
    requires xs != []
  {
    var last := xs[|xs| - 1];
    && s.primed && s.prevError == last.sp - last.pv && s.prevSetpoint == last.sp && s.prevMeasurement == last.pv
    && s.prevDout == Derivative(c, xs) && (c.filtered ==> s.derivState == s.prevDout)
  }

  lemma FirstSeen(c: Config, x: Input)
    ensures Seen(c, PosStep(c, RESET, x), [x]) && Seen(c, IncStep(c, RESET, x), [x])
  {
    assert Times(c.filterCoeff, 0.0) + Times(1.0 - c.filterCoeff, 0.0) == 0.0;
    assert Times(c.weightD, x.sp - x.sp) == 0.0 && Times(c.kdInvT, 0.0) == 0.0;
  }

  lemma NextSeen(c: Config, s: State, xs: seq<Input>, x: Input)
    requires xs != [] && Seen(c, s, xs)
    ensures Seen(c, PosStep(c, s, x), xs + [x]) && Seen(c, IncStep(c, s, x), xs + [x])
    ensures DOut(c, s, x) == Derivative(c, xs + [x])
  {
    var all := xs + [x];
    assert all[..|all| - 1] == xs && all[|all| - 2] == xs[|xs| - 1];
    assert Deriv(c, s, x) == Times(c.kdInvT, Rise(c, all[|all| - 2], x));
    Smoothed(c.filterCoeff, Deriv(c, s, x), s.derivState);
  }

  lemma Smoothed(k: real, raw: real, d: real)
    ensures Times(k, raw) + Times(1.0 - k, d) == d + Times(k, raw - d)
  {
  }

  /** Both forms remember the last input and the derivative of all, limited or not. */
  lemma {:induction false} RunSeen(c: Config, xs: seq<Input>)
    requires xs != []
    ensures Seen(c, RunPos(c, RESET, xs), xs) && Seen(c, RunInc(c, RESET, xs), xs)
    decreases |xs|
  {
    var n := |xs| - 1;
    assert xs[..n] + [xs[n]] == xs;
    if n == 0 {
      FirstSeen(c, xs[0]);
      assert xs == [xs[0]] && RunPos(c, RESET, []) == RESET == RunInc(c, RESET, []);
    } else {
      RunSeen(c, xs[..n]);
      NextSeen(c, RunPos(c, RESET, xs[..n]), xs[..n], xs[n]);
      NextSeen(c, RunInc(c, RESET, xs[..n]), xs[..n], xs[n]);
    }
  }

  /** The textbook law. */
  function Law(c: Config, xs: seq<Input>): real
    requires xs != []
  {
    var last := xs[|xs| - 1];
    Times(c.kp, Times(c.weightP, last.sp) - last.pv) + Times(c.kiT, ErrorSum(xs)) + Derivative(c, xs)
  }

  ghost predicate PosFreeRun(c: Config, xs: seq<Input>) {
    forall i :: 0 <= i < |xs| ==> PosFree(c, RunPos(c, RESET, xs[..i]), xs[i])
  }

  lemma FreeStep(c: Config, s: State, x: Input, sum: real)
    requires PosFree(c, s, x) && s.integral == Times(c.kiT, sum)
    ensures var s' := PosStep(c, s, x);
            && s'.integral == Times(c.kiT, sum + (x.sp - x.pv))
            && s'.prevOutput == Times(c.kp, Times(c.weightP, x.sp) - x.pv) + s'.integral + s'.prevDout
  {
    var p := Prime(s, x);
    NoWindupNoChange(c, Integrated(c, p, x), PosRaw(c, p, x));
    assert Times(c.kiT, sum) + Times(c.kiT, x.sp - x.pv) == Times(c.kiT, sum + (x.sp - x.pv));
  }

  lemma LawStep(c: Config, s: State, xs: seq<Input>, x: Input)
    requires PosFree(c, s, x) && s.integral == Times(c.kiT, ErrorSum(xs)) && Seen(c, PosStep(c, s, x), xs + [x])
    ensures PosStep(c, s, x).integral == Times(c.kiT, ErrorSum(xs + [x]))
    ensures PosStep(c, s, x).prevOutput == Law(c, xs + [x])
  {
    assert (xs + [x])[..|xs|] == xs;
    FreeStep(c, s, x, ErrorSum(xs));
  }

  lemma FreePrefix(c: Config, xs: seq<Input>, n: nat)
    requires PosFreeRun(c, xs) && n <= |xs|
    ensures PosFreeRun(c, xs[..n])
  {
    forall i | 0 <= i < n ensures PosFree(c, RunPos(c, RESET, xs[..n][..i]), xs[..n][i]) {
      assert xs[..n][..i] == xs[..i];
    }
  }

  lemma Nothing(k: real)
    ensures Times(k, ErrorSum([])) == 0.0
  {
  }

  /**
   * While nothing limits it, the positional form computes, from the inputs alone, gain times weighted error plus gain
   * times the sum of all errors plus the derivative.
   */
  lemma {:induction false} PositionalLaw(c: Config, xs: seq<Input>)
    requires xs != [] && PosFreeRun(c, xs)
    ensures RunPos(c, RESET, xs).prevOutput == Law(c, xs)
    ensures RunPos(c, RESET, xs).integral == Times(c.kiT, ErrorSum(xs))
    decreases |xs|
  {
    var n := |xs| - 1;
    var s, x := RunPos(c, RESET, xs[..n]), xs[n];
    RunSeen(c, xs);
    assert PosFree(c, s, x);
    if n > 0 {
      FreePrefix(c, xs, n);
      PositionalLaw(c, xs[..n]);
    } else {
      Nothing(c.kiT);
    }
    assert xs[..n] + [x] == xs;
    LawStep(c, s, xs[..n], x);
  }

  /** Where an output goes that wants to be at goal: there, or one rate step in that direction. */
  predicate Towards(c: Config, prev: real, goal: real, out: real) {
    if !c.rateLimited || Abs(goal - prev) <= c.rateStep then out == goal
    else Abs(out - prev) == c.rateStep && Abs(goal - out) < Abs(goal - prev)
  }

  /** The value within the limits closest to raw. */
  predicate Nearest(c: Config, raw: real, sat: real) {
    && c.outMin <= sat <= c.outMax
    && (sat != raw ==> (sat == c.outMax && raw > sat) || (sat == c.outMin && raw < sat))
  }

  /** Both forms put out what they computed, kept within the limits, as far as the rate allows. */
  lemma OutputsExactly(c: Config, s: State, x: Input)
    requires c.Valid()
    ensures exists sat :: Nearest(c, PosRaw(c, Prime(s, x), x), sat)
                          && Towards(c, s.prevOutput, sat, PosStep(c, s, x).prevOutput)
    ensures exists sat :: Nearest(c, IncRaw(c, Prime(s, x), x), sat)
                          && Towards(c, s.prevOutput, sat, IncStep(c, s, x).prevOutput)
  {
    var p := Prime(s, x);
    var pos, inc := Clamp(PosRaw(c, p, x), c.outMin, c.outMax), Clamp(IncRaw(c, p, x), c.outMin, c.outMax);
    assert Nearest(c, PosRaw(c, p, x), pos) && Towards(c, s.prevOutput, pos, PosStep(c, s, x).prevOutput);
    assert Nearest(c, IncRaw(c, p, x), inc) && Towards(c, s.prevOutput, inc, IncStep(c, s, x).prevOutput);
  }
}
