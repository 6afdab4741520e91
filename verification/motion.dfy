/** Multi-turn position: vernier decoding and unwrapping (App/Algorithm/Src/algo_motion.c), over the reals. */
module Motion {
  import opened IntMath
  import opened RealMath

  const PI: real := 3.14159265358979323846
  const TWO_PI: real := 2.0 * PI

  // Vernier decoding. Angles are in turns.

  datatype Decoded = Refused | Shaft(rad: real, residual: real)

  function Wrap(value: real): real { if value < 0.0 then value + 1.0 else value }

  predicate InTurn(r: real) { 0.0 <= r < 1.0 }

  function Inverse(r: real): real
    requires r != 0.0
  {
    1.0 / r
  }

  function Rounded(r: real): int { (r + 0.5).Floor }

  /** Shaft angle from the rotor angle within its turn and the vernier angle. */
  function Decode(rotor: real, vernier: real, phase: real, reducer: real, ratio: real): Decoded {
    if reducer < 1.0 || ratio <= 0.0 || ratio >= 1.0 || phase < 0.0 || phase >= Inverse(reducer)
       || !InTurn(rotor) || !InTurn(vernier) then Refused
    else if Abs(reducer - Inverse(1.0 - ratio)) > 0.001 then Refused
    else
      var estimate := Times(reducer, Wrap(Times(ratio, rotor) - vernier + phase));
      var nearest := Rounded(estimate);
      var residual := estimate - nearest as real;
      if residual > 0.25 || residual < -0.25 then Refused
      else
        var turn := if nearest as real >= reducer then 0.0 else nearest as real;
        Shaft(Times(turn + rotor, TWO_PI / reducer), Abs(residual))
  }

  /** Readings outside a turn and gears that cannot be are refused, and nothing else but a residual over a quarter. */
  lemma RefusesExactly(rotor: real, vernier: real, phase: real, reducer: real, ratio: real)
    ensures var valid := reducer >= 1.0 && 0.0 < ratio < 1.0 && 0.0 <= phase < 1.0 / reducer
                         && 0.0 <= rotor < 1.0 && 0.0 <= vernier < 1.0
                         && -0.001 <= reducer - 1.0 / (1.0 - ratio) <= 0.001;
            && (!valid ==> Decode(rotor, vernier, phase, reducer, ratio).Refused?)
            && (valid ==>
                  var estimate := Times(reducer, Wrap(Times(ratio, rotor) - vernier + phase));
                  Decode(rotor, vernier, phase, reducer, ratio).Refused?
                  <==> Abs(estimate - Rounded(estimate) as real) > 0.25)
  {
  }

  function Frac(u: real): (f: real)
    ensures InTurn(f)
  {
    u - u.Floor as real
  }

  /** What the vernier sensor of an n-turn shaft reads, with an error e. */
  function Reading(reducer: nat, n: nat, rotor: real, phase: real, e: real): real
    requires reducer > 0
  {
    Frac(Times(1.0 - Inverse(reducer as real), n as real + rotor) + phase + e)
  }

  lemma RatioOf(reducer: nat)
    requires reducer >= 2
    ensures var q := Inverse(reducer as real);
            0.0 < q <= 0.5 && reducer as real * q == 1.0 && Inverse(1.0 - (1.0 - q)) == reducer as real
  {
    var q := Inverse(reducer as real);
    assert reducer as real * q == 1.0;
    assert q > 0.5 ==> (q - 0.5) * reducer as real > 0.0;
    assert 1.0 - (1.0 - q) == q;
    InverseTwice(reducer as real);
  }

  lemma InverseTwice(r: real)
    requires r > 0.0
    ensures Inverse(r) > 0.0 && Inverse(Inverse(r)) == r
  {
    var q := Inverse(r);
    assert r * q == 1.0;
    PositiveFactor(r, q);
    assert (1.0 / q) * q == 1.0;
    Cancel(1.0 / q, r, q);
  }

  lemma PositiveFactor(r: real, q: real)
    requires r > 0.0 && r * q > 0.0
    ensures q > 0.0
  {
  }

  lemma Cancel(a: real, b: real, c: real)
    requires c != 0.0 && a * c == b * c
    ensures a == b
  {
    assert (a - b) * c == 0.0;
  }

  lemma ShareOfTurn(a: real, t: real)
    requires a > 0.0 && InTurn(t)
    ensures 0.0 <= Times(a, t) < a
  {
    assert a * (1.0 - t) > 0.0;
  }

  lemma Spread(q: real, n: real, t: real)
    ensures Times(1.0 - q, n + t) == n - Times(q, n) + Times(1.0 - q, t)
  {
  }

  /** The wrapped difference is the turn's share of the reducer, less the error, up to a whole number. */
  lemma Difference(reducer: nat, n: nat, rotor: real, phase: real, e: real) returns (m: int)
    requires reducer >= 2 && InTurn(rotor) && 0.0 <= phase < Inverse(reducer as real)
    ensures var q := Inverse(reducer as real);
            var w := Wrap(Times(1.0 - q, rotor) - Reading(reducer, n, rotor, phase, e) + phase);
            InTurn(w) && w == Times(q, n as real) - e + m as real
  {
    RatioOf(reducer);
    var q := Inverse(reducer as real);
    var v := Reading(reducer, n, rotor, phase, e);
    var u := Times(1.0 - q, n as real + rotor) + phase + e;
    Spread(q, n as real, rotor);
    var value := Times(1.0 - q, rotor) - v + phase;
    ShareOfTurn(1.0 - q, rotor);
    m := u.Floor - n + if value < 0.0 then 1 else 0;
  }

  lemma RoundedShift(x: real, k: int)
    ensures Rounded(x + k as real) == Rounded(x) + k
  {
  }

  lemma TurnOfEstimate(reducer: nat, estimate: real, x: real, m: int)
    requires reducer > 0 && 0.0 <= estimate < reducer as real && estimate == x + (reducer * m) as real
    ensures estimate - Rounded(estimate) as real == x - Rounded(x) as real
    ensures (if Rounded(estimate) as real >= reducer as real then 0 else Rounded(estimate)) == Rounded(x) % reducer
  {
    RoundedShift(x, reducer * m);
    var k := Rounded(x);
    assert 0 <= k + reducer * m <= reducer;
    Remainder(k, reducer, m);
  }

  lemma Remainder(k: int, r: nat, m: int)
    requires r > 0 && 0 <= k + r * m <= r
    ensures k % r == if k + r * m == r then 0 else k + r * m
  {
    var d := k + r * m;
    if d == r {
      assert k == r * (1 - m) + 0;
      RemainderOf(k, r, 1 - m, 0);
    } else {
      assert k == r * (-m) + d;
      RemainderOf(k, r, -m, d);
    }
  }

  /**
   * Decoding, for any error: with x = n - reducer * e, the answer is the turn nearest to x, modulo the reducer, and it
   * is refused exactly when x is more than a quarter from a whole turn.
   */
  lemma DecodeMeaning(reducer: nat, n: nat, rotor: real, phase: real, e: real)
    requires reducer >= 2 && InTurn(rotor) && 0.0 <= phase < Inverse(reducer as real)
    ensures var q := Inverse(reducer as real);
            var x := n as real - Times(reducer as real, e);
            var turn := Rounded(x) % reducer;
            var miss := Abs(x - Rounded(x) as real);
            Decode(rotor, Reading(reducer, n, rotor, phase, e), phase, reducer as real, 1.0 - q)
            == if miss > 0.25 then Refused else Shaft(Times(turn as real + rotor, TWO_PI / reducer as real), miss)
  {
    RatioOf(reducer);
    var R := reducer as real;
    var q := Inverse(R);
    var m := Difference(reducer, n, rotor, phase, e);
    var w := Wrap(Times(1.0 - q, rotor) - Reading(reducer, n, rotor, phase, e) + phase);
    var x := n as real - Times(R, e);
    Unscale(R, q, n as real, e, m as real, w);
    assert (reducer * m) as real == R * m as real;
    TurnOfEstimate(reducer, Times(R, w), x, m);
  }

  lemma Unscale(R: real, q: real, n: real, e: real, m: real, w: real)
    requires R * q == 1.0 && R > 0.0 && w == Times(q, n) - e + m && InTurn(w)
    ensures Times(R, w) == n - Times(R, e) + R * m && 0.0 <= Times(R, w) < R
  {
    assert R * (q * n) == (R * q) * n;
    assert R * (1.0 - w) > 0.0;
    assert R * w >= 0.0;
  }

  /** Within a quarter of a tooth the very turn comes back, the last one and turn 0 included. */
  lemma VernierRoundTrip(reducer: nat, n: nat, rotor: real, phase: real, e: real)
    requires reducer >= 2 && n < reducer && InTurn(rotor) && 0.0 <= phase < Inverse(reducer as real)
    requires Abs(Times(reducer as real, e)) <= 0.25
    ensures Decode(rotor, Reading(reducer, n, rotor, phase, e), phase, reducer as real, 1.0 - Inverse(reducer as real))
            == Shaft(Times(n as real + rotor, TWO_PI / reducer as real), Abs(Times(reducer as real, e)))
  {
    DecodeMeaning(reducer, n, rotor, phase, e);
    var x := n as real - Times(reducer as real, e);
    assert Rounded(x) == n;
    RemainderOf(n, reducer, 0, n);
  }

  /** Below three quarters the error is noticed exactly when it exceeds one quarter; beyond, a wrong turn can pass. */
  lemma VernierRefusal(reducer: nat, n: nat, rotor: real, phase: real, e: real)
    requires reducer >= 2 && n < reducer && InTurn(rotor) && 0.0 <= phase < Inverse(reducer as real)
    requires Abs(Times(reducer as real, e)) < 0.75
    ensures var q := Inverse(reducer as real);
            Decode(rotor, Reading(reducer, n, rotor, phase, e), phase, reducer as real, 1.0 - q).Refused?
            <==> Abs(Times(reducer as real, e)) > 0.25
  {
    DecodeMeaning(reducer, n, rotor, phase, e);
    var d := Times(reducer as real, e);
    RoundedShift(-d, n);
    QuarterTest(-d);
    assert -d + n as real == n as real - d;
  }

  lemma QuarterTest(d: real)
    requires Abs(d) < 0.75
    ensures Abs(d - Rounded(d) as real) > 0.25 <==> Abs(d) > 0.25
  {
    assert -1 <= Rounded(d) <= 1;
  }

  // Unwrapping. Angles are in radians.

  /** Integer part towards zero, then down: the floor. */
  function IntFloor(y: real): (k: int)
    ensures k == y.Floor
  {
    var t := if y >= 0.0 then y.Floor else -((-y).Floor);
    if t as real > y then t - 1 else t
  }

  function Turns(k: int): real { k as real * TWO_PI }

  function WrapTwoPi(x: real): real {
    var y := x / TWO_PI;
    (y - IntFloor(y) as real) * TWO_PI
  }

  function WrapPmPi(x: real): real {
    var y := WrapTwoPi(x);
    if y > PI then y - TWO_PI else y
  }

  ghost predicate Congruent(a: real, b: real) { exists k: int :: a == b + Turns(k) }

  /** Wrapping picks the one representative in (-pi, pi]. */
  lemma WrapIsRepresentative(x: real) returns (k: int)
    ensures -PI < WrapPmPi(x) <= PI && x == WrapPmPi(x) + Turns(k)
  {
    var y := x / TWO_PI;
    k := IntFloor(y);
    assert 0.0 <= y - k as real < 1.0;
    assert y * TWO_PI == x;
    var r := WrapTwoPi(x);
    assert 0.0 <= r < TWO_PI;
    assert x == r + Turns(k);
    if r > PI {
      assert Turns(k + 1) == Turns(k) + TWO_PI;
      k := k + 1;
    }
  }

  lemma TurnsGrow(k: int)
    ensures k >= 1 ==> Turns(k) >= TWO_PI
    ensures k <= -1 ==> Turns(k) <= -TWO_PI
  {
  }

  lemma SameRepresentative(a: real, b: real, k: int)
    requires -PI < a <= PI && -PI < b <= PI && a == b + Turns(k)
    ensures a == b
  {
    TurnsGrow(k);
  }

  lemma WrapUnique(x: real, d: real, k: int)
    requires -PI < d <= PI && x == d + Turns(k)
    ensures WrapPmPi(x) == d
  {
    var j := WrapIsRepresentative(x);
    assert Turns(k - j) == Turns(k) - Turns(j);
    SameRepresentative(WrapPmPi(x), d, k - j);
  }

  datatype State = State(continuous: real, valid: bool)

  datatype Code = Good | Jump | BadArgument

  function NextState(s: State, raw: real, prev: real, maxDelta: real): State {
    if maxDelta <= 0.0 then s
    else if !s.valid then State(raw, true)
    else if Abs(WrapPmPi(raw - prev)) >= maxDelta then s.(valid := false)
    else s.(continuous := s.continuous + WrapPmPi(raw - prev))
  }

  class Accumulator {
    var continuous: real
    var valid: bool

    function View(): State reads this { State(continuous, valid) }

    constructor ()
      ensures View() == State(0.0, false)
    {
      continuous, valid := 0.0, false;
    }

    method Step(raw: real, prev: real, maxDelta: real) returns (code: Code, rebased: bool)
      modifies this
      ensures View() == NextState(old(View()), raw, prev, maxDelta)
      ensures code == BadArgument <==> maxDelta <= 0.0
      ensures code == Jump <==> old(valid) && !valid
      ensures rebased <==> !old(valid) && valid
      ensures code == BadArgument ==> View() == old(View())
      ensures code == Jump ==> continuous == old(continuous)
      ensures rebased <==> !old(valid) && maxDelta > 0.0
      ensures rebased ==> code == Good && continuous == raw && valid
    {
      rebased := false;
      if maxDelta <= 0.0 {
        return BadArgument, rebased;
      }
      if !valid {
        continuous := raw;
        valid := true;
        rebased := true;
        return Good, rebased;
      }
      var delta := WrapPmPi(raw - prev);
      var absDelta := if delta < 0.0 then -delta else delta;
      if absDelta >= maxDelta {
        valid := false;
        return Jump, rebased;
      }
      continuous := continuous + delta;
      code := Good;
    }
  }

  /** Feeding raw angles in turn, each with the one before it. */
  function Feed(s: State, raws: seq<real>, maxDelta: real): State
    requires raws != []
    decreases |raws|
  {
    if |raws| == 1 then s else Feed(NextState(s, raws[1], raws[0], maxDelta), raws[1..], maxDelta)
  }

  /** One step against the true angle: a movement within half a turn is followed exactly, or refused for its size. */
  lemma StepTracks(s: State, raw: real, prev: real, theta: real, was: real, maxDelta: real)
    requires s.valid && maxDelta > 0.0 && Congruent(raw, theta) && Congruent(prev, was) && -PI < theta - was <= PI
    ensures NextState(s, raw, prev, maxDelta) ==
            if Abs(theta - was) < maxDelta then State(s.continuous + (theta - was), true) else s.(valid := false)
  {
    var j: int :| raw == theta + Turns(j);
    var k: int :| prev == was + Turns(k);
    assert Turns(j - k) == Turns(j) - Turns(k);
    WrapUnique(raw - prev, theta - was, j - k);
  }

  /** Over any run of small movements the continuous angle keeps its distance from the true one. */
  lemma {:induction false} UnwrapTracks(s: State, raws: seq<real>, thetas: seq<real>, maxDelta: real)
    requires raws != [] && |raws| == |thetas| && s.valid && 0.0 < maxDelta <= PI
    requires forall i :: 0 <= i < |raws| ==> Congruent(raws[i], thetas[i])
    requires forall i :: 0 < i < |thetas| ==> Abs(thetas[i] - thetas[i - 1]) < maxDelta
    ensures Feed(s, raws, maxDelta) == State(s.continuous + thetas[|thetas| - 1] - thetas[0], true)
    decreases |raws|
  {
    if |raws| > 1 {
      StepTracks(s, raws[1], raws[0], thetas[1], thetas[0], maxDelta);
      assert forall i :: 0 < i < |thetas[1..]| ==> thetas[1..][i] == thetas[i + 1] && thetas[1..][i - 1] == thetas[i];
      UnwrapTracks(NextState(s, raws[1], raws[0], maxDelta), raws[1..], thetas[1..], maxDelta);
    }
  }

  lemma StepCongruent(s: State, raw: real, prev: real, maxDelta: real)
    requires maxDelta > 0.0 && (s.valid ==> Congruent(s.continuous, prev))
    ensures NextState(s, raw, prev, maxDelta).valid ==> Congruent(NextState(s, raw, prev, maxDelta).continuous, raw)
  {
    var s' := NextState(s, raw, prev, maxDelta);
    if !s.valid {
      assert s'.continuous == raw + Turns(0);
    } else if s'.valid {
      var j: int :| s.continuous == prev + Turns(j);
      var k := WrapIsRepresentative(raw - prev);
      assert Turns(j - k) == Turns(j) - Turns(k);
      assert s'.continuous == raw + Turns(j - k);
    }
  }

  /** Over all runs, jumps and rebases included, a valid accumulator is the last raw angle plus whole turns. */
  lemma {:induction false} UnwrapCongruent(s: State, raws: seq<real>, maxDelta: real)
    requires raws != [] && maxDelta > 0.0 && (s.valid ==> Congruent(s.continuous, raws[0]))
    ensures Feed(s, raws, maxDelta).valid ==> Congruent(Feed(s, raws, maxDelta).continuous, raws[|raws| - 1])
    decreases |raws|
  {
    if |raws| > 1 {
      StepCongruent(s, raws[1], raws[0], maxDelta);
      UnwrapCongruent(NextState(s, raws[1], raws[0], maxDelta), raws[1..], maxDelta);
    }
  }
}
