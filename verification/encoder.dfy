/** The encoder snapshot: a sequence lock with one writer, and its policy for bad frames (algo_encoder_snapshot.c). */
module Encoder {
  import opened Bytes
  import opened Options

  const FIELDS: nat := 9
  const GENERATIONS: int := 0x1_0000_0000
  const FAIL_MAX: nat := 65535
  const FAIL_LIMIT_DEFAULT: nat := 3

  datatype Input = Input(raw: u16, ok: bool, timestamp: u32)

  datatype Sample = Sample(raw: u16, sourceRaw: u16, seqNo: u32, timestamp: u32, age: u32,
                           fails: u16, valid: bool, jumped: bool, readFailed: bool)

  const ZERO := Sample(0, 0, 0, 0, 0, 0, false, false, false)

  datatype Config = Config(jumpLimit: int, failLimit: nat) {
    predicate Valid() { 0 < failLimit <= FAIL_MAX }
  }

  // The policy.

  /** Distance of two readings on the 16-bit circle. */
  function CircleDistance(a: u16, b: u16): (d: nat)
    ensures d <= 32768 && (d == 0 <==> a == b)
  {
    var d := if a <= b then b as int - a as int else a as int - b as int;
    if d <= 32768 then d else 65536 - d
  }

  function Delta(raw: u16, prev: u16): int {
    var d := raw as int - prev as int;
    if d > 32768 then d - 65536 else if d < -32768 then d + 65536 else d
  }

  lemma DeltaIsCircular(raw: u16, prev: u16)
    ensures CircleDistance(prev, raw) == if Delta(raw, prev) < 0 then -Delta(raw, prev) else Delta(raw, prev)
    ensures (prev as int + Delta(raw, prev) - raw as int) % 65536 == 0
  {
  }

  predicate Jumps(cfg: Config, prev: Option<u16>, raw: u16) {
    prev.Some? && cfg.jumpLimit > 0
    && (Delta(raw, prev.value) > cfg.jumpLimit || Delta(raw, prev.value) < -cfg.jumpLimit)
  }

  /** A jump is a distance on the circle beyond the limit, if there is one and a reading to compare with. */
  lemma JumpsExactly(cfg: Config, prev: Option<u16>, raw: u16)
    ensures Jumps(cfg, prev, raw) <==>
            prev.Some? && cfg.jumpLimit > 0 && CircleDistance(prev.value, raw) > cfg.jumpLimit
  {
    if prev.Some? {
      DeltaIsCircular(raw, prev.value);
    }
  }

  function OneMore(fails: u16): u16 { if fails as int < FAIL_MAX then fails + 1 else fails }

  predicate Accepts(cfg: Config, prev: Option<u16>, x: Input) { x.ok && !Jumps(cfg, prev, x.raw) }

  /** The sample published for an input: failed read, jump held or rejected, or accepted. */
  function Judge(cfg: Config, s: Sample, prev: Option<u16>, x: Input): Sample {
    if !x.ok then s.(fails := OneMore(s.fails), readFailed := true, jumped := false, valid := false, sourceRaw := s.raw)
    else if Jumps(cfg, prev, x.raw) then
      var n := OneMore(s.fails);
      s.(fails := n, jumped := true, readFailed := false, sourceRaw := x.raw,
         valid := s.valid && (n as int) < cfg.failLimit)
    else
      s.(raw := x.raw, sourceRaw := x.raw, seqNo := ((s.seqNo as int + 1) % GENERATIONS) as u32,
         timestamp := x.timestamp, fails := 0, valid := true, jumped := false, readFailed := false)
  }

  // One field at a time.

  function CopyField(dst: Sample, src: Sample, i: nat): Sample {
    match i
    case 0 => dst.(raw := src.raw)
    case 1 => dst.(sourceRaw := src.sourceRaw)
    case 2 => dst.(seqNo := src.seqNo)
    case 3 => dst.(timestamp := src.timestamp)
    case 4 => dst.(age := src.age)
    case 5 => dst.(fails := src.fails)
    case 6 => dst.(valid := src.valid)
    case 7 => dst.(jumped := src.jumped)
    case 8 => dst.(readFailed := src.readFailed)
    case _ => dst
  }

  predicate SameField(a: Sample, b: Sample, i: nat) { CopyField(a, b, i) == a }

  lemma FieldCopied(dst: Sample, src: Sample, i: nat, j: nat)
    ensures i == j || SameField(dst, src, j) ==> SameField(CopyField(dst, src, i), src, j)
  {
    if j < 5 && i < 5 {
    } else if j < 5 {
    } else if i < 5 {
    } else {
    }
  }

  ghost predicate SameUpTo(a: Sample, b: Sample, n: nat) { forall i: nat :: i < n ==> SameField(a, b, i) }

  lemma WholeSample(a: Sample, b: Sample)
    requires SameUpTo(a, b, FIELDS)
    ensures a == b
  {
    assert SameField(a, b, 0) && SameField(a, b, 1) && SameField(a, b, 2) && SameField(a, b, 3) && SameField(a, b, 4);
    assert SameField(a, b, 5) && SameField(a, b, 6) && SameField(a, b, 7) && SameField(a, b, 8);
  }

  // Writer steps.

  /** A published sample, and how many inputs had been accepted by then. */
  datatype Entry = Entry(sample: Sample, taken: nat)

  /** Shared memory, the writer's registers, and the history: ticks of the generation, publications, accepted inputs. */
  datatype World = World(ticks: nat, mem: Sample, writing: Option<Sample>, stored: set<nat>,
                         prev: Option<u16>, log: seq<Entry>, accepted: seq<Input>) {
    function Generation(): (g: u32) { (ticks % GENERATIONS) as u32 }
  }

  const START := World(0, ZERO, None, {}, None, [Entry(ZERO, 0)], [])

  datatype Step = Begin(x: Input) | Store(field: nat) | End

  predicate AllStored(w: World) { forall i: nat :: i < FIELDS ==> i in w.stored }

  /** One store of the writer; a step that is not its turn does nothing. Fields may be stored in any order. */
  function Apply(cfg: Config, w: World, st: Step): World {
    match st
    case Begin(x) =>
      if w.writing.Some? then w
      else
        var took := Accepts(cfg, w.prev, x);
        w.(ticks := w.ticks + 1, writing := Some(Judge(cfg, w.mem, w.prev, x)), stored := {},
           prev := if took then Some(x.raw) else w.prev,
           accepted := if took then w.accepted + [x] else w.accepted)
    case Store(i) =>
      if w.writing.None? then w
      else w.(mem := CopyField(w.mem, w.writing.value, i), stored := w.stored + {i})
    case End =>
      if w.writing.None? || !AllStored(w) then w
      else w.(ticks := w.ticks + 1, writing := None, stored := {},
              log := w.log + [Entry(w.writing.value, |w.accepted|)])
  }

  function Run(cfg: Config, w: World, steps: seq<Step>): World
    decreases steps
  {
    if steps == [] then w else Run(cfg, Apply(cfg, w, steps[0]), steps[1..])
  }

  ghost predicate Later(cfg: Config, w: World, w': World) { exists steps: seq<Step> :: w' == Run(cfg, w, steps) }

  // Invariants.

  /** What an entry promises about the inputs it was made from. */
  ghost predicate EntryGood(cfg: Config, accepted: seq<Input>, e: Entry) {
    && e.taken <= |accepted|
    && e.sample.seqNo as int == e.taken % GENERATIONS
    && (e.taken > 0 ==>
          e.sample.raw == accepted[e.taken - 1].raw && e.sample.timestamp == accepted[e.taken - 1].timestamp)
    && (e.sample.valid ==> e.taken > 0 && (e.sample.fails as int) < cfg.failLimit)
  }

  /** Neighbours among the accepted readings are close. */
  ghost predicate Smooth(cfg: Config, accepted: seq<Input>) {
    forall i :: 0 < i < |accepted| && cfg.jumpLimit > 0 ==>
      CircleDistance(accepted[i - 1].raw, accepted[i].raw) <= cfg.jumpLimit
  }

  ghost predicate Inv(cfg: Config, w: World) {
    && cfg.Valid() && w.log != [] && Smooth(cfg, w.accepted)
    && w.prev == (if w.accepted == [] then None else Some(w.accepted[|w.accepted| - 1].raw))
    && (forall i :: 0 <= i < |w.log| ==> EntryGood(cfg, w.accepted, w.log[i]))
    && (w.writing.None? <==> w.ticks % 2 == 0)
    && (w.writing.None? ==> w.log[|w.log| - 1] == Entry(w.mem, |w.accepted|))
    && (w.writing.Some? ==> EntryGood(cfg, w.accepted, Entry(w.writing.value, |w.accepted|))
                            && forall i :: i in w.stored ==> SameField(w.mem, w.writing.value, i))
  }

  lemma StartInv(cfg: Config)
    requires cfg.Valid()
    ensures Inv(cfg, START)
  {
  }

  lemma WrapsAround(n: nat)
    ensures (n % GENERATIONS + 1) % GENERATIONS == (n + 1) % GENERATIONS
  {
  }

  lemma SmoothExtends(cfg: Config, accepted: seq<Input>, x: Input)
    requires Smooth(cfg, accepted) && x.ok
    requires accepted != [] ==> !Jumps(cfg, Some(accepted[|accepted| - 1].raw), x.raw)
    ensures Smooth(cfg, accepted + [x])
  {
    if accepted != [] {
      DeltaIsCircular(x.raw, accepted[|accepted| - 1].raw);
    }
  }

  lemma JudgeGood(cfg: Config, s: Sample, accepted: seq<Input>, prev: Option<u16>, x: Input)
    requires cfg.Valid() && EntryGood(cfg, accepted, Entry(s, |accepted|))
    ensures var after := if Accepts(cfg, prev, x) then accepted + [x] else accepted;
            EntryGood(cfg, after, Entry(Judge(cfg, s, prev, x), |after|))
  {
    WrapsAround(|accepted|);
  }

  lemma BeginKeeps(cfg: Config, w: World, x: Input)
    requires Inv(cfg, w) && w.writing.None?
    ensures Inv(cfg, Apply(cfg, w, Begin(x)))
  {
    JudgeGood(cfg, w.mem, w.accepted, w.prev, x);
    if Accepts(cfg, w.prev, x) {
      SmoothExtends(cfg, w.accepted, x);
    }
    var w' := Apply(cfg, w, Begin(x));
    forall i | 0 <= i < |w'.log| ensures EntryGood(cfg, w'.accepted, w'.log[i]) {
      assert w.log[i] == w'.log[i] && EntryGood(cfg, w.accepted, w.log[i]);
    }
  }

  lemma StepKeeps(cfg: Config, w: World, st: Step)
    requires Inv(cfg, w)
    ensures Inv(cfg, Apply(cfg, w, st))
  {
    if w.writing.None? && st.Begin? {
      BeginKeeps(cfg, w, st.x);
    } else if w.writing.Some? && st.Store? {
      forall j | j in w.stored + {st.field} ensures SameField(Apply(cfg, w, st).mem, w.writing.value, j) {
        FieldCopied(w.mem, w.writing.value, st.field, j);
      }
    } else if w.writing.Some? && st.End? && AllStored(w) {
      WholeSample(w.mem, w.writing.value);
    }
  }

  lemma {:induction false} RunKeeps(cfg: Config, w: World, steps: seq<Step>)
    requires Inv(cfg, w)
    ensures Inv(cfg, Run(cfg, w, steps))
    decreases steps
  {
    if steps != [] {
      StepKeeps(cfg, w, steps[0]);
      RunKeeps(cfg, Apply(cfg, w, steps[0]), steps[1..]);
    }
  }

  /** History only grows, and while the generation stands still outside a write, nothing changes at all. */
  ghost predicate Calm(w: World, w': World) {
    && w.ticks <= w'.ticks && w.log <= w'.log && w.accepted <= w'.accepted
    && (w.ticks == w'.ticks && w.writing.None? ==> w' == w)
  }

  /** The writer does nothing from one moment to another, and is not in the middle of a publication. */
  ghost predicate Quiet(w: World, w': World) { w' == w && w.writing.None? }

  lemma {:induction false} RunCalm(cfg: Config, w: World, steps: seq<Step>)
    ensures Calm(w, Run(cfg, w, steps))
    decreases steps
  {
    if steps != [] {
      assert Calm(w, Apply(cfg, w, steps[0]));
      RunCalm(cfg, Apply(cfg, w, steps[0]), steps[1..]);
    }
  }

  lemma LaterCalm(cfg: Config, w: World, w': World)
    requires Later(cfg, w, w')
    ensures Calm(w, w') && (Inv(cfg, w) ==> Inv(cfg, w'))
  {
    var steps :| w' == Run(cfg, w, steps);
    RunCalm(cfg, w, steps);
    if Inv(cfg, w) {
      RunKeeps(cfg, w, steps);
    }
  }

  lemma QuietThroughout(cfg: Config, w: World, at: World, w': World)
    requires Later(cfg, w, at) && Later(cfg, at, w') && Quiet(w, w')
    ensures at == w
  {
    LaterCalm(cfg, w, at);
    LaterCalm(cfg, at, w');
  }

  lemma {:induction false} RunThenRun(cfg: Config, w: World, s: seq<Step>, s': seq<Step>)
    ensures Run(cfg, w, s + s') == Run(cfg, Run(cfg, w, s), s')
    decreases s
  {
    if s == [] {
      assert s + s' == s';
    } else {
      assert (s + s')[1..] == s[1..] + s';
      RunThenRun(cfg, Apply(cfg, w, s[0]), s[1..], s');
    }
  }

  lemma LaterThenLater(cfg: Config, a: World, b: World, c: World)
    requires Later(cfg, a, b) && Later(cfg, b, c)
    ensures Later(cfg, a, c)
  {
    var s :| b == Run(cfg, a, s);
    var s' :| c == Run(cfg, b, s');
    RunThenRun(cfg, a, s, s');
  }

  /** Fewer than 2^31 publications fit into this many ticks. */
  predicate Brief(first: World, last: World) { last.ticks - first.ticks < GENERATIONS }

  lemma SameGeneration(first: World, last: World)
    requires first.ticks <= last.ticks && Brief(first, last) && first.Generation() == last.Generation()
    ensures first.ticks == last.ticks
  {
  }

  lemma EvenGeneration(w: World)
    ensures w.Generation() as int % 2 == w.ticks % 2
  {
  }

  /** A load between two equal even readings of the generation happened while nothing at all changed. */
  lemma QuietLoad(cfg: Config, first: World, at: World, last: World)
    requires Inv(cfg, first) && Later(cfg, first, at) && Later(cfg, at, last) && Brief(first, last)
    requires first.Generation() as int % 2 == 0 && first.Generation() == last.Generation()
    ensures at == first && first.mem == first.log[|first.log| - 1].sample
  {
    LaterCalm(cfg, first, at);
    LaterCalm(cfg, at, last);
    SameGeneration(first, last);
    EvenGeneration(first);
  }

  /**
   * The sequence lock: each field loaded at any moment between the two readings, in any order, whatever the writer
   * does meanwhile, the copy is the one sample published last: never a mixture.
   */
  lemma SeqlockRead(cfg: Config, first: World, at: seq<World>, last: World, got: Sample)
    requires Inv(cfg, first) && |at| == FIELDS && Brief(first, last)
    requires forall i :: 0 <= i < FIELDS ==>
               Later(cfg, first, at[i]) && Later(cfg, at[i], last) && SameField(got, at[i].mem, i)
    requires first.Generation() as int % 2 == 0 && first.Generation() == last.Generation()
    ensures Entry(got, |first.accepted|) == first.log[|first.log| - 1]
  {
    forall i: nat | i < FIELDS ensures SameField(got, first.mem, i) {
      QuietLoad(cfg, first, at[i], last);
    }
    WholeSample(got, first.mem);
    assert Later(cfg, first, at[0]) && Later(cfg, at[0], last);
    QuietLoad(cfg, first, at[0], last);
    EvenGeneration(first);
  }

  /** A new sequence number means another accepted input, as long as fewer than 2^32 were accepted in between. */
  lemma NewMeansAccepted(cfg: Config, accepted: seq<Input>, a: Entry, b: Entry)
    requires EntryGood(cfg, accepted, a) && EntryGood(cfg, accepted, b) && a.taken <= b.taken < a.taken + GENERATIONS
    ensures b.sample.seqNo != a.sample.seqNo <==> b.taken != a.taken
    ensures b.sample.seqNo == a.sample.seqNo && a.taken > 0 ==>
              b.sample.raw == a.sample.raw && b.sample.timestamp == a.sample.timestamp
  {
  }

  lemma LaterStep(cfg: Config, a: World, b: World, st: Step)
    requires Later(cfg, a, b)
    ensures Later(cfg, a, Apply(cfg, b, st))
  {
    assert Apply(cfg, b, st) == Run(cfg, b, [st]) by {
      assert [st][1..] == [];
    }
    LaterThenLater(cfg, a, b, Apply(cfg, b, st));
  }

  lemma LaterNow(cfg: Config, a: World)
    ensures Later(cfg, a, a)
  {
    assert a == Run(cfg, a, []);
  }

  // Validity over a run.

  /** The world after a run of inputs. */
  function PushAll(cfg: Config, xs: seq<Input>): World
    decreases |xs|
  {
    if xs == [] then START else Pushed(cfg, PushAll(cfg, xs[..|xs| - 1]), xs[|xs| - 1])
  }

  /** The inputs since the last accepted one, or all of them if none was. */
  function Rejects(cfg: Config, xs: seq<Input>): (r: seq<Input>)
    ensures |r| <= |xs|
    decreases |xs|
  {
    if xs == [] then []
    else
      var before, x := xs[..|xs| - 1], xs[|xs| - 1];
      if Accepts(cfg, PushAll(cfg, before).prev, x) then [] else Rejects(cfg, before) + [x]
  }

  /**
   * The sample is valid exactly if some input was accepted and since then no device read failed and fewer inputs than
   * the limit were rejected; the counter counts both kinds, up to its maximum.
   */
  lemma {:induction false} ValidExactly(cfg: Config, xs: seq<Input>)
    requires cfg.Valid()
    ensures var w, rejects := PushAll(cfg, xs), Rejects(cfg, xs);
            && (w.mem.valid <==> w.accepted != [] && |rejects| < cfg.failLimit && forall x :: x in rejects ==> x.ok)
            && w.mem.fails as int == (if |rejects| < FAIL_MAX then |rejects| else FAIL_MAX)
    decreases |xs|
  {
    if xs != [] {
      var before, x := xs[..|xs| - 1], xs[|xs| - 1];
      ValidExactly(cfg, before);
      if !Accepts(cfg, PushAll(cfg, before).prev, x) {
        assert x in Rejects(cfg, xs) && forall y :: y in Rejects(cfg, before) ==> y in Rejects(cfg, xs);
      }
    }
  }

  /** The reading and time of the last input accepted, and how many were. */
  ghost predicate Tells(w: World) {
    var s, n := w.mem, |w.accepted|;
    && s.seqNo as int == n % GENERATIONS
    && w.prev == (if n == 0 then None else Some(s.raw))
    && (n > 0 ==> s.raw == w.accepted[n - 1].raw && s.timestamp == w.accepted[n - 1].timestamp)
  }

  lemma NextNumber(n: nat)
    ensures (n % GENERATIONS + 1) % GENERATIONS == (n + 1) % GENERATIONS
  {
  }

  lemma PushedTells(cfg: Config, w: World, x: Input)
    requires Tells(w)
    ensures Tells(Pushed(cfg, w, x))
  {
    NextNumber(|w.accepted|);
  }

  /**
   * What the sample says after any run: the reading and time of the last input accepted and how many were, and of the
   * last input whether its read failed, whether it was turned down, and what the device read.
   */
  lemma {:induction false} DiagnosisExactly(cfg: Config, xs: seq<Input>)
    ensures Tells(PushAll(cfg, xs))
    ensures xs != [] ==>
              var w, x, took := PushAll(cfg, xs), xs[|xs| - 1], Rejects(cfg, xs) == [];
              && (w.mem.readFailed <==> !x.ok) && (w.mem.jumped <==> x.ok && !took)
              && w.mem.sourceRaw == (if x.ok then x.raw else w.mem.raw)
              && (took ==> w.accepted != [] && w.accepted[|w.accepted| - 1] == x)
    decreases |xs|
  {
    if xs != [] {
      DiagnosisExactly(cfg, xs[..|xs| - 1]);
      PushedTells(cfg, PushAll(cfg, xs[..|xs| - 1]), xs[|xs| - 1]);
    }
  }

  // The driver's object.

  datatype Outcome = Accepted | Held | Rejected

  /** The world after an input has been judged and published without interruption. */
  function Pushed(cfg: Config, w: World, x: Input): World {
    var took := Accepts(cfg, w.prev, x);
    var accepted := if took then w.accepted + [x] else w.accepted;
    World(w.ticks + 2, Judge(cfg, w.mem, w.prev, x), None, {}, if took then Some(x.raw) else w.prev,
          w.log + [Entry(Judge(cfg, w.mem, w.prev, x), |accepted|)], accepted)
  }

  lemma Begins(cfg: Config, w: World, x: Input)
    requires Inv(cfg, w) && w.writing.None?
    ensures var b := Apply(cfg, w, Begin(x));
            && Inv(cfg, b) && Later(cfg, w, b) && b.mem == w.mem
            && b.Generation() as int == (w.Generation() as int + 1) % GENERATIONS
  {
    StepKeeps(cfg, w, Begin(x));
    LaterNow(cfg, w);
    LaterStep(cfg, w, w, Begin(x));
    WrapsAround(w.ticks);
  }

  lemma Finishes(cfg: Config, w: World, x: Input, mid: World)
    requires Inv(cfg, mid) && w.writing.None? && AllStored(mid)
    requires Later(cfg, w, mid) && mid == Apply(cfg, w, Begin(x)).(mem := mid.mem, stored := mid.stored)
    ensures Apply(cfg, mid, End) == Pushed(cfg, w, x) && Inv(cfg, Pushed(cfg, w, x)) && Later(cfg, w, Pushed(cfg, w, x))
    ensures Pushed(cfg, w, x).Generation() as int == (mid.Generation() as int + 1) % GENERATIONS
  {
    StepKeeps(cfg, mid, End);
    WholeSample(mid.mem, mid.writing.value);
    LaterStep(cfg, w, mid, End);
    WrapsAround(mid.ticks);
  }

  class EncoderSnapshot {
    const cfg: Config
    var generation: u32
    var sample: Sample
    var prevRaw: u16
    var prevValid: bool
    var jumpCount: u32
    var errorCount: u32
    /** The same memory with the writer's progress and the history. */
    var w: World

    ghost predicate Mirrors()
      reads this
    {
      Inv(cfg, w) && generation == w.Generation() && sample == w.mem
    }

    ghost predicate Valid()
      reads this
    {
      Mirrors() && w.prev == if prevValid then Some(prevRaw) else None
    }

    constructor (jumpLimit: int, failLimit: u16)
      ensures Valid() && w == START
      ensures cfg == Config(jumpLimit, if failLimit != 0 then failLimit else FAIL_LIMIT_DEFAULT)
    {
      cfg := Config(jumpLimit, if failLimit != 0 then failLimit else FAIL_LIMIT_DEFAULT);
      generation, sample, prevRaw, prevValid, jumpCount, errorCount := 0, ZERO, 0, false, 0, 0;
      w := START;
    }

    /** The structure copy, a field at a time. */
    method Copy(s: Sample)
      requires Mirrors() && w.writing == Some(s)
      modifies this`sample, this`w
      ensures Mirrors() && AllStored(w) && Later(cfg, old(w), w)
      ensures w == old(w).(mem := sample, stored := w.stored)
    {
      LaterNow(cfg, w);
      var i := 0;
      while i < FIELDS
        invariant 0 <= i <= FIELDS
        invariant Mirrors() && Later(cfg, old(w), w)
        invariant w == old(w).(mem := sample, stored := w.stored) && forall j: nat :: j < i ==> j in w.stored
      {
        StepKeeps(cfg, w, Store(i));
        LaterStep(cfg, old(w), w, Store(i));
        sample := CopyField(sample, s, i);
        w := Apply(cfg, w, Store(i));
        i := i + 1;
      }
    }

    /** The generation becomes odd: a write begins. */
    method BeginPublish(x: Input)
      requires Mirrors() && w.writing.None?
      modifies this`generation, this`w
      ensures Mirrors() && w == Apply(cfg, old(w), Begin(x)) && Later(cfg, old(w), w)
    {
      Begins(cfg, w, x);
      generation := (generation as int + 1) % GENERATIONS;
      w := Apply(cfg, w, Begin(x));
    }

    /** The generation becomes even again: the sample is out. */
    method EndPublish(x: Input, ghost start: World)
      requires Mirrors() && start.writing.None? && AllStored(w) && Later(cfg, start, w)
      requires w == Apply(cfg, start, Begin(x)).(mem := w.mem, stored := w.stored)
      modifies this`generation, this`w
      ensures Mirrors() && w == Pushed(cfg, start, x) && Later(cfg, start, w)
    {
      Finishes(cfg, start, x, w);
      generation := (generation as int + 1) % GENERATIONS;
      w := Apply(cfg, w, End);
    }

    /** Generation odd, copy the fields, generation even. */
    method Publish(s: Sample, x: Input)
      requires Mirrors() && w.writing.None? && s == Judge(cfg, w.mem, w.prev, x)
      modifies this`generation, this`sample, this`w
      ensures Mirrors() && w == Pushed(cfg, old(w), x) && Later(cfg, old(w), w)
    {
      ghost var start := w;
      BeginPublish(x);
      ghost var begun := w;
      Copy(s);
      LaterThenLater(cfg, start, begun, w);
      EndPublish(x, start);
    }

    /** The jump test, wrap-safe and only against an earlier accepted reading. */
    method JumpTest(raw: u16) returns (jumped: bool)
      requires Valid()
      ensures jumped == Jumps(cfg, w.prev, raw)
    {
      jumped := false;
      if prevValid && cfg.jumpLimit > 0 {
        var delta := raw as int - prevRaw as int;
        if delta > 32768 {
          delta := delta - 65536;
        } else if delta < -32768 {
          delta := delta + 65536;
        }
        if delta > cfg.jumpLimit || delta < -cfg.jumpLimit {
          jumped := true;
        }
      }
    }

    /** The branch of a failed device read. */
    method FailedRead(x: Input)
      requires Valid() && w.writing.None? && !x.ok
      modifies this
      ensures Valid() && w == Pushed(cfg, old(w), x) && Later(cfg, old(w), w)
      ensures errorCount as int == (old(errorCount) as int + 1) % GENERATIONS && jumpCount == old(jumpCount)
    {
      var s := sample;
      errorCount := (errorCount as int + 1) % GENERATIONS;
      if s.fails as int < FAIL_MAX {
        s := s.(fails := s.fails + 1);
      }
      s := s.(readFailed := true, jumped := false, valid := false, sourceRaw := s.raw);
      Publish(s, x);
    }

    /** The branch of a reading that jumped: held for a while, then rejected. */
    method Jumped(x: Input)
      requires Valid() && w.writing.None? && x.ok && Jumps(cfg, w.prev, x.raw)
      modifies this
      ensures Valid() && w == Pushed(cfg, old(w), x) && Later(cfg, old(w), w)
      ensures jumpCount as int == (old(jumpCount) as int + 1) % GENERATIONS && errorCount == old(errorCount)
    {
      var s := sample;
      jumpCount := (jumpCount as int + 1) % GENERATIONS;
      if s.fails as int < FAIL_MAX {
        s := s.(fails := s.fails + 1);
      }
      s := s.(jumped := true, readFailed := false, sourceRaw := x.raw);
      if s.fails as int >= cfg.failLimit {
        s := s.(valid := false);
      }
      Publish(s, x);
    }

    /** The only branch that takes the reading over. */
    method Accept(x: Input)
      requires Valid() && w.writing.None? && Accepts(cfg, w.prev, x)
      modifies this
      ensures Valid() && w == Pushed(cfg, old(w), x) && Later(cfg, old(w), w)
      ensures jumpCount == old(jumpCount) && errorCount == old(errorCount)
    {
      var s := sample;
      prevRaw := x.raw;
      prevValid := true;
      s := s.(raw := x.raw, sourceRaw := x.raw, seqNo := (s.seqNo as int + 1) % GENERATIONS,
              timestamp := x.timestamp, fails := 0, valid := true, jumped := false, readFailed := false);
      Publish(s, x);
    }

    /** One input from the sampler, judged and published. */
    method Push(x: Input) returns (r: Outcome)
      requires Valid() && w.writing.None?
      modifies this
      ensures Valid() && w == Pushed(cfg, old(w), x) && Later(cfg, old(w), w)
      ensures r == if Accepts(cfg, old(w).prev, x) then Accepted
                   else if x.ok && sample.valid then Held else Rejected
      ensures errorCount as int == if x.ok then old(errorCount) as int else (old(errorCount) as int + 1) % GENERATIONS
      ensures jumpCount as int ==
              if x.ok && !Accepts(cfg, old(w).prev, x) then (old(jumpCount) as int + 1) % GENERATIONS
                                  else old(jumpCount) as int
    {
      if !x.ok {
        FailedRead(x);
        return Rejected;
      }
      var jumped := JumpTest(x.raw);
      if jumped {
        Jumped(x);
        return if sample.valid then Held else Rejected;
      }
      Accept(x);
      r := Accepted;
    }

    /** Anything the writer may do while a reader is between two loads. */
    method Interfere()
      requires Valid()
      modifies this
      ensures Valid() && Later(cfg, old(w), w)
    {
      var n := *;
      LaterNow(cfg, w);
      var i := 0;
      while i < n
        invariant Valid() && Later(cfg, old(w), w)
      {
        var st: Step := *;
        StepKeeps(cfg, w, st);
        LaterStep(cfg, old(w), w, st);
        w := Apply(cfg, w, st);
        generation := w.Generation();
        sample := w.mem;
        prevValid := w.prev.Some?;
        prevRaw := if w.prev.Some? then w.prev.value else prevRaw;
        i := i + 1;
      }
    }

    /** Load the sample field by field, the writer running in between. */
    method Load() returns (tmp: Sample)
      requires Valid()
      modifies this
      ensures Valid() && Later(cfg, old(w), w)
      ensures Quiet(old(w), w) ==> tmp == old(w).mem
    {
      tmp := ZERO;
      var i := 0;
      LaterNow(cfg, w);
      while i < FIELDS
        invariant 0 <= i <= FIELDS && Valid() && Later(cfg, old(w), w)
        invariant Quiet(old(w), w) ==> SameUpTo(tmp, old(w).mem, i)
      {
        ghost var at, before := w, tmp;
        tmp := CopyField(tmp, sample, i);
        LaterCalm(cfg, old(w), at);
        Interfere();
        LaterThenLater(cfg, old(w), at, w);
        LaterCalm(cfg, at, w);
        forall j: nat | Quiet(old(w), w) && j < i + 1 ensures SameField(tmp, old(w).mem, j) {
          FieldCopied(before, old(w).mem, i, j);
        }
        i := i + 1;
      }
      if Quiet(old(w), w) {
        WholeSample(tmp, old(w).mem);
      }
    }

    /** One attempt: generation, sample, generation again; taken only if both readings are even and equal. */
    method Attempt() returns (taken: bool, tmp: Sample, ghost first: World, ghost last: World)
      requires Valid()
      modifies this
      ensures Valid() && first == old(w) && Later(cfg, first, last) && w == last
      ensures taken && Brief(first, last) ==> first.log != [] && tmp == first.log[|first.log| - 1].sample
                                              && first.log[|first.log| - 1].taken == |first.accepted|
      ensures Quiet(first, last) ==> taken && tmp == first.mem
    {
      var gen0 := generation;
      first := w;
      Interfere();
      ghost var loading := w;
      last := w;
      if gen0 % 2 != 0 {
        return false, ZERO, first, last;
      }
      tmp := Load();
      last := w;
      LaterThenLater(cfg, first, loading, last);
      if Quiet(first, last) {
        QuietThroughout(cfg, first, loading, last);
      }
      taken := gen0 == generation;
      if taken && Brief(first, last) {
        QuietLoad(cfg, first, loading, last);
        EvenGeneration(first);
        LaterNow(cfg, last);
        QuietLoad(cfg, first, last, last);
      }
    }

    /**
     * Bounded read. A true answer is one whole publication, made from an accepted input, still trusted - provided the
     * writer publishes fewer than 2^31 samples during the attempt. An attempt the writer leaves alone is the last one,
     * and its answer is the sample's own validity.
     */
    method Read(now: u32, maxRetries: nat) returns (ok: bool, out: Sample, ghost first: World, ghost last: World)
      requires Valid()
      modifies this
      ensures Valid() && Later(cfg, old(w), w)
      ensures ok && Brief(first, last) ==>
                Later(cfg, old(w), first) && Later(cfg, first, last) && Fetched(cfg, first, now, out)
      ensures maxRetries == 0 ==> !ok
      ensures maxRetries > 0 && Quiet(first, last) ==> ok == first.mem.valid
    {
      LaterNow(cfg, w);
      first, last := w, w;
      for attempt := 0 to maxRetries
        invariant Valid() && Later(cfg, old(w), w)
        invariant attempt > 0 ==> !Quiet(first, last)
      {
        var taken, tmp;
        ghost var before := w;
        taken, tmp, first, last := Attempt();
        LaterThenLater(cfg, old(w), before, w);
        if taken {
          if Brief(first, last) && tmp.valid {
            LastIsFetched(cfg, first, now, tmp);
          }
          out := tmp.(age := (now as int - tmp.timestamp as int) % GENERATIONS);
          return tmp.valid, out, first, last;
        }
      }
      ghost var before := w;
      out := Load();
      LaterThenLater(cfg, old(w), before, w);
      out := out.(age := (now as int - out.timestamp as int) % GENERATIONS);
      ok := false;
    }
  }

  /** What a successful read delivers: the last publication, its reading accepted, its failures below the limit. */
  ghost predicate Fetched(cfg: Config, at: World, now: u32, out: Sample) {
    && at.log != []
    && var e := at.log[|at.log| - 1];
    && out == e.sample.(age := ((now as int - e.sample.timestamp as int) % GENERATIONS) as u32)
    && 0 < e.taken <= |at.accepted|
    && out.raw == at.accepted[e.taken - 1].raw && out.timestamp == at.accepted[e.taken - 1].timestamp
    && (out.fails as int) < cfg.failLimit
    && Smooth(cfg, at.accepted)
  }

  lemma LastIsFetched(cfg: Config, at: World, now: u32, s: Sample)
    requires Inv(cfg, at) && s.valid
    requires s == at.log[|at.log| - 1].sample && at.log[|at.log| - 1].taken == |at.accepted|
    ensures Fetched(cfg, at, now, s.(age := ((now as int - s.timestamp as int) % GENERATIONS) as u32))
  {
  }
}
