/** Phase shift by rotating the compare window of a PWM pair (Driver/hpm_impl/drv_hrpwm.c). */
module Hrpwm {
  import opened IntMath
  import opened RealMath

  const RELOAD_MAX: nat := 0x0FFF_FFFF
  const RUNTIME_GUARD_DEG: real := 89.0

  datatype Align = Edge | Center

  datatype Cmp = Cmp(begin: nat, end: nat)

  datatype Channel = Channel(configured: bool, started: bool, duty: real, align: Align,
                             invertHigh: bool, invertLow: bool)

  /** The compare pair and the two polarity bits of an output pair. */
  datatype Regs = Regs(cmp: Cmp, polHigh: bool, polLow: bool)

  datatype Phase = Phase(active: bool, ref: nat, target: nat, deg: real, count: nat)

  datatype Limits = Limits(maxDeg: real, maxDutyRef: real, maxDutyTarget: real)

  // Windows.

  function Inside(c: nat, cmp: Cmp): bool { cmp.begin <= c < cmp.end }

  /** The comparator: permanently high when neither compare value is ever reached. */
  function Window(cmp: Cmp, reload: nat, c: nat): bool {
    if cmp.begin > reload && cmp.end > reload then true else Inside(c, cmp)
  }

  function CmpCount(reload: nat, duty: real): (n: nat)
    requires 0.0 <= duty <= 1.0
    ensures n <= reload
  {
    Share(reload, duty);
    (reload as real * duty).Floor
  }

  lemma Share(reload: nat, duty: real)
    requires 0.0 <= duty <= 1.0
    ensures 0.0 <= reload as real * duty <= reload as real
  {
  }

  function CalcCenter(reload: nat, duty: real): Cmp
    requires 0.0 <= duty <= 1.0
  {
    if duty >= 1.0 then Cmp(reload + 1, reload + 1)
    else if duty <= 0.0 then Cmp(0, 0)
    else
      var n := CmpCount(reload, duty);
      var begin := (reload - n) / 2;
      var end := (reload + n) / 2;
      var b := if begin == 0 then 1 else begin;
      var e := if end == 0 then 1 else end;
      if b > e then Cmp(e, b) else Cmp(b, e)
  }

  function CalcEdge(reload: nat, duty: real): Cmp
    requires 0.0 <= duty <= 1.0
  {
    if duty >= 1.0 then Cmp(reload + 1, reload + 1)
    else if duty <= 0.0 then Cmp(0, 0)
    else
      var begin := reload - CmpCount(reload, duty);
      Cmp(if begin == 0 then 1 else begin, reload)
  }

  function CalcCmp(reload: nat, ch: Channel): Cmp
    requires 0.0 <= ch.duty <= 1.0
  {
    if ch.align == Center then CalcCenter(reload, ch.duty) else CalcEdge(reload, ch.duty)
  }

  /** A window within the period, or one that begins past it. */
  predicate Shaped(reload: nat, c: Cmp) {
    c.begin <= c.end <= reload || (c.begin == reload + 1 && c.end <= reload + 1)
  }

  lemma CmpShape(reload: nat, ch: Channel)
    requires 0.0 <= ch.duty <= 1.0
    ensures Shaped(reload, CalcCmp(reload, ch))
  {
  }

  /** Never high. */
  predicate Silent(reload: nat, c: Cmp) { c.end <= reload && c.end <= c.begin }

  predicate SameWindow(reload: nat, a: Cmp, b: Cmp) { a == b || (Silent(reload, a) && Silent(reload, b)) }

  /** A count at which two windows differ. */
  function Difference(reload: nat, a: Cmp, b: Cmp): nat {
    if a.end > reload || b.end > reload then reload
    else if Silent(reload, a) then b.begin
    else if Silent(reload, b) then a.begin
    else if a.begin != b.begin then (if a.begin < b.begin then a.begin else b.begin)
    else if a.end < b.end then a.end else b.end
  }

  /** Compare pairs make the same output at every count exactly if they are equal or neither is ever high. */
  lemma SameWindowExactly(reload: nat, a: Cmp, b: Cmp)
    requires Shaped(reload, a) && Shaped(reload, b)
    ensures (forall c: nat :: c <= reload ==> Window(a, reload, c) == Window(b, reload, c))
            <==> SameWindow(reload, a, b)
  {
    var d := Difference(reload, a, b);
    if !SameWindow(reload, a, b) {
      assert d <= reload && Window(a, reload, d) != Window(b, reload, d);
    }
  }

  /** A compare value in the 24-bit register and its 4-bit extension. */
  function Split(v: nat): (nat, nat) { (v % 0x100_0000, v / 0x100_0000 % 0x10) }

  function Join(low: nat, ext: nat): nat { ext * 0x100_0000 + low }

  lemma SplitJoin(v: nat)
    requires v <= RELOAD_MAX
    ensures Join(Split(v).0, Split(v).1) == v
  {
  }

  /** Every compare value fits its registers, the one past the period included. */
  lemma CompareFits(reload: nat, ch: Channel)
    requires reload < RELOAD_MAX && 0.0 <= ch.duty <= 1.0
    ensures var c := CalcCmp(reload, ch);
            Join(Split(c.begin).0, Split(c.begin).1) == c.begin && Join(Split(c.end).0, Split(c.end).1) == c.end
  {
    CmpShape(reload, ch);
    SplitJoin(CalcCmp(reload, ch).begin);
    SplitJoin(CalcCmp(reload, ch).end);
  }

  /** Position on the counter circle, one step of at most a full turn. */
  function Step(a: nat, p: nat, period: nat): (r: nat)
    requires a < period && p < period
    ensures r < period
  {
    if a + p < period then a + p else a + p - period
  }

  lemma StepIsMod(a: nat, p: nat, period: nat)
    requires a < period
    ensures (a + p) % period == Step(a, p % period, period)
  {
    var q, r := p / period, p % period;
    assert p == period * q + r;
    var s := Step(a, r, period);
    if a + r < period {
      assert a + p == period * q + s;
      RemainderOf(a + p, period, q, s);
    } else {
      assert a + p == period * (q + 1) + s;
      RemainderOf(a + p, period, q + 1, s);
    }
  }

  /** The target's registers for a reference window: rotated, with a wrapped window swapped and inverted. */
  function Rotated(reload: nat, ref: Cmp, count: nat, target: Channel): Regs {
    if ref.begin > reload || ref.end > reload then Regs(ref, target.invertHigh, target.invertLow)
    else
      var b := (ref.begin + count) % (reload + 1);
      var e := (ref.end + count) % (reload + 1);
      if b > e then Regs(Cmp(e, b), target.invertHigh != true, target.invertLow != true)
      else Regs(Cmp(b, e), target.invertHigh, target.invertLow)
  }

  /** Output levels with the pair's own configured inversion taken out. */
  function High(r: Regs, ch: Channel, reload: nat, c: nat): bool {
    Window(r.cmp, reload, c) != (r.polHigh != ch.invertHigh)
  }

  function Low(r: Regs, ch: Channel, reload: nat, c: nat): bool {
    Window(r.cmp, reload, c) != (r.polLow != ch.invertLow)
  }

  function PlainRegs(reload: nat, ch: Channel): Regs
    requires 0.0 <= ch.duty <= 1.0
  {
    Regs(CalcCmp(reload, ch), ch.invertHigh, ch.invertLow)
  }

  // What a duty is worth.

  /** At how many of the counts from lo to hi the output is high. */
  ghost function Highs(r: Regs, ch: Channel, reload: nat, lo: nat, hi: nat): (n: nat)
    requires lo <= hi
    ensures n <= hi - lo
    decreases hi
  {
    if lo == hi then 0 else Highs(r, ch, reload, lo, hi - 1) + if High(r, ch, reload, hi - 1) then 1 else 0
  }

  /** A window that ends within the period is high from its begin to its end. */
  lemma {:induction false} HighInWindow(r: Regs, ch: Channel, reload: nat, n: nat)
    requires r.cmp.begin <= r.cmp.end <= reload && r.polHigh == ch.invertHigh
    ensures var b, e := r.cmp.begin, r.cmp.end;
            Highs(r, ch, reload, 0, n) == if n <= b then 0 else if n <= e then n - b else e - b
  {
    if n > 0 {
      HighInWindow(r, ch, reload, n - 1);
    }
  }

  /** One that begins past the period is always high, or never. */
  lemma {:induction false} HighPast(r: Regs, ch: Channel, reload: nat, n: nat)
    requires r.cmp.begin == reload + 1 && r.cmp.end <= reload + 1 && n <= reload + 1 && r.polHigh == ch.invertHigh
    ensures Highs(r, ch, reload, 0, n) == if r.cmp.end > reload then n else 0
  {
    if n > 0 {
      HighPast(r, ch, reload, n - 1);
    }
  }

  /** Around the middle of the period, or at its end. */
  predicate Placed(reload: nat, align: Align, c: Cmp) {
    if align == Center then reload - 1 <= c.begin + c.end <= reload + 1 else c.end == reload
  }

  /**
   * The registers give the duty that is set, on both sides. 0 is never high and 1 always. In between exactly the whole
   * counts in reload times duty are high, centred or ending with the period; a centred window that would begin at count
   * 0 loses that count. Only in a period of a single count a centred window is high instead of low.
   */
  ghost predicate HasDuty(r: Regs, ch: Channel, reload: nat) {
    var high, n := Highs(r, ch, reload, 0, reload + 1), Times(reload as real, ch.duty).Floor;
    && r.polHigh == ch.invertHigh && r.polLow == ch.invertLow
    && (ch.duty == 0.0 ==> high == 0)
    && (ch.duty == 1.0 ==> high == reload + 1)
    && (0.0 < ch.duty < 1.0 && reload > 0 ==> Placed(reload, ch.align, r.cmp))
    && (0.0 < ch.duty < 1.0 ==>
          high == if ch.align == Edge then n
                  else if reload == 0 then 1
                  else if n > 0 && n + 1 == reload then n - 1 else n)
  }

  lemma Remains(a: real, b: real, c: real)
    requires a > 0.0 && b < c
    ensures a * b < a * c
  {
    assert a * (c - b) > 0.0;
  }

  lemma ShareBelow(reload: nat, duty: real)
    requires 0.0 < duty < 1.0
    ensures CmpCount(reload, duty) == Times(reload as real, duty).Floor
    ensures if reload > 0 then CmpCount(reload, duty) < reload else CmpCount(reload, duty) == 0
  {
    if reload > 0 {
      Remains(reload as real, duty, 1.0);
    }
  }

  /** The compare values of a duty strictly between 0 and 1, n of reload counts. */
  lemma PlacedCounts(reload: nat, ch: Channel, n: nat)
    requires 0.0 < ch.duty < 1.0 && n == CmpCount(reload, ch.duty) && (n < reload || n == reload == 0)
    ensures var c := CalcCmp(reload, ch);
            if reload == 0 then c == if ch.align == Edge then Cmp(1, 0) else Cmp(1, 1)
            else
              && c.begin <= c.end <= reload && Placed(reload, ch.align, c)
              && c.end - c.begin == if ch.align == Center && n > 0 && n + 1 == reload then n - 1 else n
  {
  }

  /** Windows within the period and past it, counted over the whole period. */
  lemma WindowCounts(r: Regs, ch: Channel, reload: nat)
    requires Shaped(reload, r.cmp) && r.polHigh == ch.invertHigh
    ensures Highs(r, ch, reload, 0, reload + 1)
            == if r.cmp.begin <= reload then r.cmp.end - r.cmp.begin else if r.cmp.end > reload then reload + 1 else 0
  {
    if r.cmp.begin <= reload {
      HighInWindow(r, ch, reload, reload + 1);
    } else {
      HighPast(r, ch, reload, reload + 1);
    }
  }

  /** The plain waveform has the duty, for every alignment and period. */
  lemma DutyShare(reload: nat, ch: Channel)
    requires 0.0 <= ch.duty <= 1.0
    ensures HasDuty(PlainRegs(reload, ch), ch, reload)
  {
    if 0.0 < ch.duty < 1.0 {
      ShareBelow(reload, ch.duty);
      PlacedCounts(reload, ch, CmpCount(reload, ch.duty));
    }
    CmpShape(reload, ch);
    WindowCounts(PlainRegs(reload, ch), ch, reload);
  }

  /** The rotated window is the reference window, count ticks later, at every count of the period. */
  lemma RotatedWindow(reload: nat, ref: Cmp, count: nat, target: Channel, c: nat)
    requires c <= reload && Shaped(reload, ref)
    ensures var r := Rotated(reload, ref, count, target);
            var d := (c + count) % (reload + 1);
            High(r, target, reload, d) == Low(r, target, reload, d) == Window(ref, reload, c)
  {
    StepIsMod(c, count, reload + 1);
    if ref.begin <= reload {
      StepIsMod(ref.begin, count, reload + 1);
      StepIsMod(ref.end, count, reload + 1);
      StepWindow(reload, ref, count % (reload + 1), c);
    }
  }

  lemma StepWindow(reload: nat, ref: Cmp, p: nat, c: nat)
    requires p <= reload && c <= reload && ref.begin <= ref.end <= reload
    ensures var b, e, d := Step(ref.begin, p, reload + 1), Step(ref.end, p, reload + 1), Step(c, p, reload + 1);
            Inside(c, ref) == if b > e then !Inside(d, Cmp(e, b)) else Inside(d, Cmp(b, e))
  {
  }

  /** Counts for an angle, short of a full period. */
  function PhaseCount(reload: nat, deg: real): (n: nat)
    requires deg >= 0.0
    ensures n <= reload
  {
    var exact := (reload + 1) as real * deg / 360.0;
    assert exact >= 0.0;
    if exact.Floor >= reload + 1 then reload else exact.Floor
  }

  /** The whole counts in an angle's share of the period, short of a full period. */
  predicate CountsFor(reload: nat, deg: real, n: nat) {
    var period := (reload + 1) as real;
    if deg < 360.0 then n as real * 360.0 <= period * deg < (n + 1) as real * 360.0 else n == reload
  }

  lemma PhaseCountExact(reload: nat, deg: real)
    requires deg >= 0.0
    ensures CountsFor(reload, deg, PhaseCount(reload, deg))
  {
    var period, exact := (reload + 1) as real, (reload + 1) as real * deg / 360.0;
    assert exact * 360.0 == period * deg;
    if deg < 360.0 {
      Remains(period, deg, 360.0);
    } else if deg > 360.0 {
      Remains(period, 360.0, deg);
    }
  }

  // An instance.

  datatype State = State(clock: nat, reload: nat, channels: seq<Channel>, regs: seq<Regs>,
                         phase: Phase, limits: Limits) {
    predicate Shape() {
      && |channels| == |regs| >= 2
      && (forall p :: 0 <= p < |channels| ==> 0.0 <= channels[p].duty <= 1.0)
    }

    predicate IsTarget(p: nat) { phase.active && phase.target == p }

    predicate IsRef(p: nat) { phase.active && phase.ref == p }

    predicate Plain(p: nat)
      requires Shape() && p < |channels|
    {
      regs[p] == PlainRegs(reload, channels[p])
    }

    predicate PhasePairs() { phase.ref < 2 && phase.target < 2 && phase.ref != phase.target }

    /** The limits the phase is allowed under. */
    predicate Allowed()
      requires Shape() && PhasePairs()
    {
      && channels[phase.ref].configured && channels[phase.target].configured
      && channels[phase.ref].duty <= limits.maxDutyRef && channels[phase.target].duty <= limits.maxDutyTarget
    }

    /** At every count the target is where the reference was phase.count counts ago, high side and low side. */
    ghost predicate InPhase()
      requires Shape() && PhasePairs()
    {
      forall c: nat :: c <= reload ==> SameLevel(c)
    }

    ghost predicate SameLevel(c: nat)
      requires Shape() && PhasePairs()
    {
      var d := (c + phase.count) % (reload + 1);
      && High(regs[phase.target], channels[phase.target], reload, d)
         == High(regs[phase.ref], channels[phase.ref], reload, c)
      && Low(regs[phase.target], channels[phase.target], reload, d)
         == Low(regs[phase.ref], channels[phase.ref], reload, c)
    }

    /** Every pair but the target has its plain waveform: true after refused calls too. */
    ghost predicate Base() {
      && Shape()
      && (forall p: nat :: p < |channels| && channels[p].configured && !IsTarget(p) ==> Plain(p))
      && (phase.active ==> PhasePairs() && channels[phase.ref].configured && channels[phase.target].configured)
    }

    /** Every configured pair but the target runs at its duty. */
    ghost predicate AtDuty()
      requires Shape()
    {
      forall p: nat :: p < |channels| && channels[p].configured && !IsTarget(p) ==>
                         HasDuty(regs[p], channels[p], reload)
    }

    ghost predicate Inv() { Base() && (phase.active ==> InPhase()) }

    predicate DutyOk(p: nat, duty: real) {
      p < |channels| && 0.0 <= duty <= 1.0 && channels[p].configured && !IsTarget(p)
    }

    function WithDuty(p: nat, duty: real): State
      requires Shape() && p < |channels| && 0.0 <= duty <= 1.0
    {
      var ch := channels[p].(duty := duty);
      this.(channels := channels[p := ch], regs := regs[p := PlainRegs(reload, ch)])
    }

    /** A new phase, the former target's plain waveform restored if it is no longer the target. */
    function Rephased(next: Phase): State
      requires Shape() && (phase.active ==> PhasePairs())
    {
      this.(phase := next,
            regs := if phase.active && phase.target != next.target
                    then regs[phase.target := PlainRegs(reload, channels[phase.target])] else regs)
    }

    /** A new period with a plain waveform on every configured pair, the target too. */
    function WithReload(r: nat): State
      requires Shape()
    {
      this.(reload := r,
            regs := seq(|regs|, p requires 0 <= p < |regs| =>
                          if channels[p].configured then PlainRegs(r, channels[p]) else regs[p]))
    }

    /** What a duty leaves: on the reference of a phase within the limits the target follows. */
    function AfterDuty(p: nat, duty: real): State
      requires Shape() && (phase.active ==> PhasePairs()) && DutyOk(p, duty)
    {
      var s := WithDuty(p, duty);
      if s.IsRef(p) && s.Allowed() then s.WithPhase() else s
    }

    function AfterFrequency(r: nat): State
      requires Shape() && (phase.active ==> PhasePairs())
    {
      var s := WithReload(r);
      if phase.active && s.Allowed() then s.WithPhase() else s
    }

    function WithPhase(): State
      requires Shape() && PhasePairs()
    {
      this.(regs := regs[phase.target := PhaseRegs()])
    }

    /** Some pair of the current phase has been started. */
    predicate Running()
      requires Shape() && (phase.active ==> PhasePairs())
    {
      phase.active && (channels[phase.ref].started || channels[phase.target].started)
    }

    predicate PhaseOk(ref: nat, target: nat, deg: real)
      requires Shape() && (phase.active ==> PhasePairs())
    {
      && ref < 2 && target < 2 && ref != target && 0.0 <= deg <= limits.maxDeg
      && (Running() ==> deg <= RUNTIME_GUARD_DEG)
      && channels[ref].configured && channels[target].configured
      && channels[ref].duty <= limits.maxDutyRef && channels[target].duty <= limits.maxDutyTarget
    }

    function PhaseRegs(): Regs
      requires Shape() && PhasePairs()
    {
      Rotated(reload, CalcCmp(reload, channels[phase.ref]), phase.count, channels[phase.target])
    }
  }

  /** Plain waveforms run at their duty. */
  lemma BaseIsAtDuty(s: State)
    requires s.Base()
    ensures s.AtDuty()
  {
    forall p: nat | p < |s.channels| && s.channels[p].configured && !s.IsTarget(p)
      ensures HasDuty(s.regs[p], s.channels[p], s.reload)
    {
      assert s.Plain(p);
      DutyShare(s.reload, s.channels[p]);
    }
  }

  lemma {:induction false} HighsSplit(r: Regs, ch: Channel, reload: nat, lo: nat, mid: nat, hi: nat)
    requires lo <= mid <= hi
    ensures Highs(r, ch, reload, lo, hi) == Highs(r, ch, reload, lo, mid) + Highs(r, ch, reload, mid, hi)
    decreases hi
  {
    if mid < hi {
      HighsSplit(r, ch, reload, lo, mid, hi - 1);
    }
  }

  /** Levels that are the same k counts later. */
  lemma {:induction false} HighsShift(r: Regs, ch: Channel, r': Regs, ch': Channel, reload: nat, lo: nat, hi: nat,
                                      k: int)
    requires lo <= hi && lo + k >= 0
    requires forall c: nat :: lo <= c < hi ==> High(r', ch', reload, c + k) == High(r, ch, reload, c)
    ensures Highs(r', ch', reload, lo + k, hi + k) == Highs(r, ch, reload, lo, hi)
    decreases hi
  {
    if lo < hi {
      HighsShift(r, ch, r', ch', reload, lo, hi - 1, k);
    }
  }

  /** In phase, the target is high at as many counts as the reference. */
  lemma TargetShare(s: State)
    requires s.Base() && s.phase.active && s.InPhase()
    ensures Highs(s.regs[s.phase.target], s.channels[s.phase.target], s.reload, 0, s.reload + 1)
            == Highs(s.regs[s.phase.ref], s.channels[s.phase.ref], s.reload, 0, s.reload + 1)
  {
    var reload, period, p := s.reload, s.reload + 1, s.phase.count % (s.reload + 1);
    var r, ch := s.regs[s.phase.ref], s.channels[s.phase.ref];
    var r', ch' := s.regs[s.phase.target], s.channels[s.phase.target];
    forall c: nat | c < period ensures High(r', ch', reload, Step(c, p, period)) == High(r, ch, reload, c) {
      assert s.SameLevel(c);
      StepIsMod(c, s.phase.count, period);
    }
    HighsShift(r, ch, r', ch', reload, 0, period - p, p);
    HighsShift(r, ch, r', ch', reload, period - p, period, p - period);
    HighsSplit(r, ch, reload, 0, period - p, period);
    HighsSplit(r', ch', reload, 0, p, period);
  }

  /** Plain waveforms everywhere else, and the rotated one laid on the target: an instance in phase. */
  lemma RotationIsInPhase(s: State)
    requires s.Base() && s.phase.active
    ensures s.WithPhase().Inv()
  {
    var t := s.WithPhase();
    CmpShape(s.reload, s.channels[s.phase.ref]);
    assert s.Plain(s.phase.ref);
    forall c: nat | c <= s.reload ensures t.SameLevel(c) {
      RotatedWindow(s.reload, CalcCmp(s.reload, s.channels[s.phase.ref]), s.phase.count, s.channels[s.phase.target], c);
    }
    forall p: nat | p < |t.channels| && t.channels[p].configured && !t.IsTarget(p) ensures t.Plain(p) {
      assert s.Plain(p);
    }
  }

  lemma DutyKeepsBase(s: State, p: nat, duty: real)
    requires s.Base() && s.DutyOk(p, duty)
    ensures s.WithDuty(p, duty).Base()
  {
    var t := s.WithDuty(p, duty);
    forall q: nat | q < |t.channels| && t.channels[q].configured && !t.IsTarget(q) ensures t.Plain(q) {
      if q != p {
        assert s.Plain(q);
      }
    }
  }

  /** A duty on a pair outside the phase does not disturb it. */
  lemma DutyElsewhere(s: State, p: nat, duty: real)
    requires s.Inv() && s.DutyOk(p, duty) && !s.IsRef(p)
    ensures s.WithDuty(p, duty).Inv()
  {
    DutyKeepsBase(s, p, duty);
    var t := s.WithDuty(p, duty);
    if t.phase.active {
      forall c: nat | c <= t.reload ensures t.SameLevel(c) {
        assert s.SameLevel(c);
      }
    }
  }

  /** A duty written to the reference alone keeps the pairs in phase exactly if it makes the same window. */
  lemma DutyWithoutPhase(s: State, p: nat, duty: real)
    requires s.Inv() && s.DutyOk(p, duty) && s.IsRef(p)
    ensures s.WithDuty(p, duty).Inv() <==>
            SameWindow(s.reload, CalcCmp(s.reload, s.channels[p]), CalcCmp(s.reload, s.channels[p].(duty := duty)))
  {
    DutyKeepsBase(s, p, duty);
    var t := s.WithDuty(p, duty);
    assert s.Plain(p) && t.Plain(p);
    var was, now := CalcCmp(s.reload, s.channels[p]), CalcCmp(s.reload, t.channels[p]);
    CmpShape(s.reload, s.channels[p]);
    CmpShape(s.reload, t.channels[p]);
    SameWindowExactly(s.reload, was, now);
    if t.Inv() {
      forall c: nat | c <= s.reload ensures Window(was, s.reload, c) == Window(now, s.reload, c) {
        assert s.SameLevel(c) && t.SameLevel(c);
      }
    } else if SameWindow(s.reload, was, now) {
      forall c: nat | c <= t.reload ensures t.SameLevel(c) {
        assert s.SameLevel(c) && Window(was, s.reload, c) == Window(now, s.reload, c);
      }
    }
  }

  /**
   * A duty keeps the pairs in phase exactly unless it is written to the reference, the limits then refuse the phase,
   * and it makes another window: a refused duty has already been written.
   */
  lemma RefusedDutyBreaksPhase(s: State, p: nat, duty: real)
    requires s.Inv() && s.DutyOk(p, duty)
    ensures s.AfterDuty(p, duty).Inv() <==>
            || !s.IsRef(p) || s.WithDuty(p, duty).Allowed()
            || SameWindow(s.reload, CalcCmp(s.reload, s.channels[p]), CalcCmp(s.reload, s.channels[p].(duty := duty)))
  {
    if !s.IsRef(p) {
      DutyElsewhere(s, p, duty);
    } else if s.WithDuty(p, duty).Allowed() {
      DutyKeepsBase(s, p, duty);
      RotationIsInPhase(s.WithDuty(p, duty));
    } else {
      DutyWithoutPhase(s, p, duty);
    }
  }

  /** Two pairs in phase, 100 of 1001 counts apart, at a quarter duty, under a limit of one half on the reference. */
  const QUARTER := Channel(true, false, 0.25, Center, false, false)
  const LIMITED := State(1_000_000, 1000, [QUARTER, QUARTER], [PlainRegs(1000, QUARTER), PlainRegs(1000, QUARTER)],
                         Phase(true, 0, 1, 36.0, 100), Limits(180.0, 0.5, 1.0)).WithPhase()

  /** There a duty of three quarters is refused, and the pairs are out of phase. */
  lemma RefusedDutyWitness()
    ensures LIMITED.Inv() && LIMITED.DutyOk(0, 0.75) && LIMITED.IsRef(0) && !LIMITED.WithDuty(0, 0.75).Allowed()
    ensures !LIMITED.AfterDuty(0, 0.75).Inv()
  {
    var s := State(1_000_000, 1000, [QUARTER, QUARTER], [PlainRegs(1000, QUARTER), PlainRegs(1000, QUARTER)],
                   Phase(true, 0, 1, 36.0, 100), Limits(180.0, 0.5, 1.0));
    assert s.Plain(0) && s.Base();
    RotationIsInPhase(s);
    RefusedDutyBreaksPhase(LIMITED, 0, 0.75);
    assert CmpCount(1000, 0.25) == 250 && CmpCount(1000, 0.75) == 750;
  }

  /** The count from which a phase leads to d. */
  lemma StepBack(reload: nat, count: nat, d: nat) returns (c: nat)
    requires d <= reload
    ensures c <= reload && (c + count) % (reload + 1) == d
  {
    var p := count % (reload + 1);
    c := if d >= p then d - p else d + (reload + 1) - p;
    StepIsMod(c, count, reload + 1);
  }

  /** A target left with a window of its own, not inverted, is in phase exactly if that is the rotated window. */
  lemma PlainTargetInPhase(s: State)
    requires s.Base() && s.phase.active && s.Plain(s.phase.target)
    ensures s.InPhase() <==>
            || s.regs[s.phase.target] == s.PhaseRegs()
            || (Silent(s.reload, s.regs[s.phase.target].cmp)
                && Silent(s.reload, CalcCmp(s.reload, s.channels[s.phase.ref])))
  {
    var target, reload := s.channels[s.phase.target], s.reload;
    var ref := CalcCmp(reload, s.channels[s.phase.ref]);
    var own, due := s.regs[s.phase.target], s.PhaseRegs();
    assert s.Plain(s.phase.ref);
    CmpShape(reload, s.channels[s.phase.ref]);
    CmpShape(reload, target);
    RotatedShape(reload, ref, s.phase.count, target);
    PlainOrInverted(reload, own, due, target);
    if s.InPhase() {
      forall d: nat | d <= reload ensures High(own, target, reload, d) == High(due, target, reload, d) {
        var c := StepBack(reload, s.phase.count, d);
        assert s.SameLevel(c);
        RotatedWindow(reload, ref, s.phase.count, target, c);
      }
    } else if own == due || (Silent(reload, own.cmp) && Silent(reload, due.cmp) && due.polHigh == target.invertHigh) {
      forall c: nat | c <= reload ensures s.SameLevel(c) {
        RotatedWindow(reload, ref, s.phase.count, target, c);
        assert High(own, target, reload, (c + s.phase.count) % (reload + 1))
            == High(due, target, reload, (c + s.phase.count) % (reload + 1));
      }
    }
  }

  /** Rotated registers: a window, inverted only when it wraps and then nowhere empty; silent with the reference. */
  lemma RotatedShape(reload: nat, ref: Cmp, count: nat, target: Channel)
    requires Shaped(reload, ref)
    ensures var r := Rotated(reload, ref, count, target);
            && Shaped(reload, r.cmp) && (r.polHigh != target.invertHigh <==> r.polLow != target.invertLow)
            && (r.polHigh != target.invertHigh ==> r.cmp.begin < r.cmp.end <= reload)
            && (Silent(reload, ref) <==> Silent(reload, r.cmp))
  {
    if ref.begin <= reload {
      StepIsMod(ref.begin, count, reload + 1);
      StepIsMod(ref.end, count, reload + 1);
    }
  }

  /** Registers without inversion and rotated ones make the same level at every count exactly if they are the same. */
  lemma PlainOrInverted(reload: nat, own: Regs, due: Regs, target: Channel)
    requires own.polHigh == target.invertHigh && own.polLow == target.invertLow && Shaped(reload, own.cmp)
    requires Shaped(reload, due.cmp) && (due.polHigh != target.invertHigh <==> due.polLow != target.invertLow)
    requires due.polHigh != target.invertHigh ==> due.cmp.begin < due.cmp.end <= reload
    ensures (forall d: nat :: d <= reload ==> High(own, target, reload, d) == High(due, target, reload, d)) <==>
            own == due || (due.polHigh == target.invertHigh && Silent(reload, own.cmp) && Silent(reload, due.cmp))
  {
    if due.polHigh == target.invertHigh {
      SameWindowExactly(reload, own.cmp, due.cmp);
      assert forall d: nat :: d <= reload ==>
          (High(own, target, reload, d) == High(due, target, reload, d)
           <==> Window(own.cmp, reload, d) == Window(due.cmp, reload, d));
    } else {
      var d := if own.cmp.begin > reload && own.cmp.end > reload then due.cmp.begin else reload;
      assert d <= reload && High(own, target, reload, d) != High(due, target, reload, d);
    }
  }

  lemma ReloadKeepsBase(s: State, r: nat)
    requires s.Base()
    ensures s.WithReload(r).Base()
    ensures s.phase.active ==> s.WithReload(r).Plain(s.phase.target)
  {
  }

  /**
   * A frequency keeps the pairs in phase exactly unless the limits refuse the phase, which has then been taken off the
   * target though it stays active, and the target's plain window is not the rotated one by chance.
   */
  lemma RefusedFrequencyBreaksPhase(s: State, r: nat)
    requires s.Base()
    ensures s.AfterFrequency(r).Base()
    ensures var t := s.WithReload(r);
            s.AfterFrequency(r).Inv() <==>
            || !s.phase.active || s.Allowed() || t.regs[s.phase.target] == t.PhaseRegs()
            || (Silent(r, t.regs[s.phase.target].cmp) && Silent(r, CalcCmp(r, s.channels[s.phase.ref])))
  {
    ReloadKeepsBase(s, r);
    if s.phase.active {
      PlainTargetInPhase(s.WithReload(r));
      RotationIsInPhase(s.WithReload(r));
    }
  }

  lemma RephasedIsBase(s: State, next: Phase)
    requires s.Base() && next.active && next.ref < 2 && next.target < 2 && next.ref != next.target
    requires s.channels[next.ref].configured && s.channels[next.target].configured
    ensures s.Rephased(next).Base()
  {
    var t := s.Rephased(next);
    forall q: nat | q < |t.channels| && t.channels[q].configured && !t.IsTarget(q) ensures t.Plain(q) {
      if !s.IsTarget(q) {
        assert s.Plain(q);
      }
    }
  }

  class Instance {
    const clock: nat
    var reload: nat
    var channels: seq<Channel>
    var regs: seq<Regs>
    var phase: Phase
    var limits: Limits

    function View(): State reads this { State(clock, reload, channels, regs, phase, limits) }

    /** Channels as the pair initialisation leaves them: plain waveforms, no phase. */
    constructor (clock: nat, reload: nat, channels: seq<Channel>)
      requires |channels| >= 2 && forall p :: 0 <= p < |channels| ==> 0.0 <= channels[p].duty <= 1.0
      ensures View().Inv() && !phase.active && this.channels == channels && this.reload == reload && this.clock == clock
    {
      this.clock, this.reload, this.channels := clock, reload, channels;
      regs := seq(|channels|, p requires 0 <= p < |channels| => PlainRegs(reload, channels[p]));
      phase := Phase(false, 0, 0, 0.0, 0);
      limits := Limits(180.0, 1.0, 1.0);
    }

    /** New limits for phases to come; what runs is left as it is. */
    method ConfigPhaseLimit(next: Limits) returns (ok: bool)
      modifies this`limits
      ensures ok <==> next.maxDeg >= 0.0 && 0.0 <= next.maxDutyRef <= 1.0 && 0.0 <= next.maxDutyTarget <= 1.0
      ensures View() == if ok then old(View()).(limits := next) else old(View())
      ensures old(View().Base()) ==> View().Base()
      ensures old(View().Inv()) ==> View().Inv()
    {
      if next.maxDeg < 0.0 || next.maxDutyRef < 0.0 || next.maxDutyRef > 1.0
         || next.maxDutyTarget < 0.0 || next.maxDutyTarget > 1.0 {
        return false;
      }
      LimitsDoNotMatter(View(), next);
      limits := next;
      ok := true;
    }

    /** Compute and write the plain waveform of a pair, inversion cancelled. */
    method ApplyDuty(p: nat)
      requires View().Shape() && p < |channels|
      modifies this`regs
      ensures regs == old(regs)[p := PlainRegs(reload, channels[p])]
    {
      var cmp := CalcCmp(reload, channels[p]);
      regs := regs[p := Regs(regs[p].cmp, channels[p].invertHigh, channels[p].invertLow)];
      regs := regs[p := regs[p].(cmp := cmp)];
    }

    /** Rotate the target's window to the current phase. */
    method ApplyPhase() returns (ok: bool)
      requires View().Shape() && (phase.active ==> View().PhasePairs())
      modifies this`regs
      ensures View().Shape() && (ok <==> !phase.active || View().Allowed())
      ensures regs == if phase.active && ok then old(regs)[phase.target := View().PhaseRegs()] else old(regs)
    {
      if !phase.active {
        return true;
      }
      var ref, target := channels[phase.ref], channels[phase.target];
      if !ref.configured || !target.configured {
        return false;
      }
      if ref.duty > limits.maxDutyRef || target.duty > limits.maxDutyTarget {
        return false;
      }
      var period := reload + 1;
      var refCmp := CalcCmp(reload, ref);
      if refCmp.begin > reload || refCmp.end > reload {
        regs := regs[phase.target := Regs(refCmp, target.invertHigh, target.invertLow)];
        return true;
      }
      var begin := (refCmp.begin + phase.count) % period;
      var end := (refCmp.end + phase.count) % period;
      var invert := false;
      if begin > end {
        begin, end := end, begin;
        invert := true;
      }
      regs := regs[phase.target := Regs(Cmp(begin, end), target.invertHigh != invert, target.invertLow != invert)];
      ok := true;
    }

    /** Refused on the phase target; on the reference the target follows, if the limits allow the phase. */
    method SetDuty(p: nat, duty: real) returns (ok: bool)
      requires View().Base()
      modifies this`channels, this`regs
      ensures View().Base()
      ensures !old(View()).DutyOk(p, duty) ==> !ok && View() == old(View())
      ensures old(View()).DutyOk(p, duty) ==>
                && View() == old(View()).AfterDuty(p, duty)
                && (ok <==> !View().IsRef(p) || old(View()).WithDuty(p, duty).Allowed())
                && channels[p].duty == duty && View().AtDuty()
      ensures ok && (View().IsRef(p) || old(View().Inv())) ==> View().Inv()
    {
      if p >= |channels| || !(0.0 <= duty <= 1.0) || !channels[p].configured {
        return false;
      }
      if View().IsTarget(p) {
        return false;
      }
      ghost var before := View();
      DutyKeepsBase(before, p, duty);
      channels := channels[p := channels[p].(duty := duty)];
      ApplyDuty(p);
      assert View() == before.WithDuty(p, duty);
      if View().IsRef(p) {
        ok := ApplyPhase();
        if ok {
          RotationIsInPhase(before.WithDuty(p, duty));
        }
        BaseIsAtDuty(View());
        return;
      }
      if before.Inv() {
        DutyElsewhere(before, p, duty);
      }
      BaseIsAtDuty(View());
      ok := true;
    }

    /** A plain waveform for every configured pair. */
    method ApplyDuties()
      requires View().Shape()
      modifies this`regs
      ensures View() == old(View()).WithReload(reload)
    {
      var p := 0;
      while p < |channels|
        invariant 0 <= p <= |channels| && |regs| == |old(regs)|
        invariant forall q: nat :: q < |channels| && (q >= p || !channels[q].configured) ==> regs[q] == old(regs)[q]
        invariant forall q: nat :: q < p && channels[q].configured ==> regs[q] == PlainRegs(reload, channels[q])
      {
        if channels[p].configured {
          ApplyDuty(p);
        }
        p := p + 1;
      }
      assert regs == old(View()).WithReload(reload).regs;
    }

    /**
     * A new period: every configured pair gets its plain waveform, then the phase is laid over, if the limits allow it.
     * The count stays.
     */
    method SetFrequency(hz: nat) returns (ok: bool)
      requires View().Base()
      modifies this`reload, this`regs
      ensures View().Base()
      ensures !FrequencyOk(clock, hz) ==> !ok && View() == old(View())
      ensures FrequencyOk(clock, hz) ==>
                && View() == old(View()).AfterFrequency(clock / hz - 1)
                && (ok <==> !phase.active || old(View()).Allowed())
                && View().AtDuty()
      ensures ok ==> View().Inv()
    {
      if hz == 0 || clock <= hz {
        return false;
      }
      AtLeastOne(clock, hz);
      var next := clock / hz - 1;
      if next >= RELOAD_MAX {
        return false;
      }
      ghost var before := View();
      ReloadKeepsBase(before, next);
      reload := next;
      ApplyDuties();
      assert View() == before.WithReload(next);
      ok := ApplyPhase();
      if ok && phase.active {
        RotationIsInPhase(before.WithReload(next));
      }
      BaseIsAtDuty(View());
    }

    /** Take the new phase; a pair that stops being the target gets its plain waveform back. */
    method Rephase(next: Phase)
      requires View().Base() && next.active && next.ref < 2 && next.target < 2 && next.ref != next.target
      requires channels[next.ref].configured && channels[next.target].configured
      modifies this`regs, this`phase
      ensures View() == old(View()).Rephased(next) && View().Base()
    {
      RephasedIsBase(View(), next);
      var previous := phase.target;
      var restore := phase.active && previous != next.target;
      phase := next;
      if restore {
        ApplyDuty(previous);
      }
    }

    /** Put one pair behind another by an angle. */
    method SetPhase(ref: nat, target: nat, deg: real) returns (ok: bool)
      requires View().Base()
      modifies this`regs, this`phase
      ensures ok <==> old(View()).PhaseOk(ref, target, deg)
      ensures ok ==> View().Inv() && deg >= 0.0 && phase == Phase(true, ref, target, deg, PhaseCount(reload, deg))
      ensures ok ==> CountsFor(reload, deg, phase.count) && View().AtDuty()
      ensures ok ==> View() == old(View()).Rephased(phase).WithPhase()
      ensures !ok ==> View() == old(View())
    {
      if ref > 1 || target > 1 || ref == target {
        return false;
      }
      if deg < 0.0 || deg > limits.maxDeg {
        return false;
      }
      if View().Running() && deg > RUNTIME_GUARD_DEG {
        return false;
      }
      var count := PhaseCount(reload, deg);
      if !channels[ref].configured || !channels[target].configured {
        return false;
      }
      if channels[ref].duty > limits.maxDutyRef || channels[target].duty > limits.maxDutyTarget {
        return false;
      }
      Rephase(Phase(true, ref, target, deg, count));
      ghost var plain := View();
      ok := ApplyPhase();
      RotationIsInPhase(plain);
      BaseIsAtDuty(View());
      PhaseCountExact(reload, deg);
    }
  }

  predicate FrequencyOk(clock: nat, hz: nat) { hz > 0 && clock > hz && clock / hz - 1 < RELOAD_MAX }

  lemma LimitsDoNotMatter(s: State, next: Limits)
    ensures s.Base() ==> s.(limits := next).Base()
    ensures s.Inv() ==> s.(limits := next).Inv()
  {
    var t := s.(limits := next);
    if s.Base() {
      forall q: nat | q < |t.channels| && t.channels[q].configured && !t.IsTarget(q) ensures t.Plain(q) {
        assert s.Plain(q);
      }
      if s.Inv() && s.phase.active {
        forall c: nat | c <= t.reload ensures t.SameLevel(c) {
          assert s.SameLevel(c);
        }
      }
    }
  }

  lemma AtLeastOne(a: nat, b: nat)
    requires b > 0 && a > b
    ensures a / b >= 1
  {
    var q, r := a / b, a % b;
    assert a == b * q + r && 0 <= r < b;
    AtLeast(b, q);
  }
}
