/** How often a freshly committed image is tried before it is given up (bootloader/src/boot.c). */
module Trials {
  import opened Bytes
  import opened Layout
  import opened Options
  import opened ControlLog
  import opened BootMeta
  import opened Boot

  type Log = cells: seq<Cell> | cells != [] && LegalCells(cells) witness [Blank]

  /** A control log in working order: no erase of it was ever torn. */
  ghost predicate Sound(cells: seq<Cell>) {
    cells != [] && Contiguous(cells) && LegalCells(cells)
  }

  /**
   * The boot runs to its decision with every save made, or with its saves in any state, reported as failed or not (the
   * decision does not look), or power fails during its save number k. An erase that does not complete may be torn.
   */
  datatype Power = Stays | Loses(tears: bool) | Fails(k: nat, tears: bool) {
    predicate Tears() { !Stays? && tears }
  }

  /** What a reset meets: which slots are valid then, whether DFU is forced, and how long power lasts. */
  datatype Reset = Reset(v: Validity, forced: bool, power: Power)

  function SavesOf(cells: seq<Cell>, r: Reset): (s: seq<Control>)
    requires LegalCells(cells)
    ensures forall c :: c in s ==> c.Legal()
  {
    if r.forced then [] else Saves(Current(cells), r.v)
  }

  /** Each save leaves nothing, a torn record, an erased log if that was full, or its record. */
  ghost predicate Attempted(cells: seq<Cell>, saves: seq<Control>, next: seq<Cell>, tears: bool)
    requires cells != []
    decreases |saves|
  {
    if saves == [] then next == cells
    else exists mid ::
           mid != [] && CutDuringSave(cells, saves[0], mid, tears) && Attempted(mid, saves[1..], next, tears)
  }

  /** One reset takes the log to `next`. */
  ghost predicate Step(cells: Log, r: Reset, next: seq<Cell>) {
    var saves := SavesOf(cells, r);
    match r.power
    case Stays => next == AppendAll(cells, saves)
    case Loses(tears) => Attempted(cells, saves, next, tears)
    case Fails(k, tears) => k < |saves| && CutDuringSave(AppendAll(cells, saves[..k]), saves[k], next, tears)
  }

  /** This reset starts slot s as the pending one. */
  predicate StartsPending(cells: seq<Cell>, r: Reset, s: Slot)
    requires LegalCells(cells)
  {
    var c := Current(cells);
    !r.power.Fails? && !r.forced && TriesPending(c, r.v) && c.pending == s
  }

  /** ... and the try is not counted in what the next reset finds. */
  predicate StartsUncounted(cells: seq<Cell>, r: Reset, next: seq<Cell>, s: Slot)
    requires LegalCells(cells) && LegalCells(next)
  {
    StartsPending(cells, r, s) && Current(next).pending == s && Current(next).attempts == Current(cells).attempts
  }

  lemma SavedSound(cells: seq<Cell>, r: Control)
    requires Sound(cells) && r.Legal()
    ensures Sound(Saved(cells, r)) && Current(Saved(cells, r)) == Numbered(cells, r)
  {
    AppendContiguous(cells, Good(Numbered(cells, r)));
    SaveThenLoad(cells, r);
  }

  /** A save that is cut, or lost, leaves the old record, the new one or the defaults. */
  lemma CutSound(cells: seq<Cell>, r: Control, left: seq<Cell>)
    requires Sound(cells) && r.Legal() && CutDuringSave(cells, r, left, false)
    ensures Sound(left)
    ensures Current(left) in {Current(cells), Numbered(cells, r), DEFAULTS}
  {
    CutSaveLoads(cells, r, left, false);
    SavedSound(cells, r);
  }

  /** What a reset leaves current: nothing pending, or the same slot with this try counted. */
  ghost predicate Weakens(was: Control, now: Control, tries: nat) {
    now.pending == SLOT_NONE || (now.pending == was.pending && was.attempts + tries <= now.attempts)
  }

  /** Two saves in any state leave nothing pending, or what was current. */
  lemma AttemptedSound(cells: seq<Cell>, saves: seq<Control>, next: seq<Cell>)
    requires Sound(cells) && |saves| <= 2 && forall r :: r in saves ==> r.Legal()
    requires Attempted(cells, saves, next, false)
    ensures Sound(next)
    ensures || Current(next) == Current(cells) || Current(next) == DEFAULTS
            || exists k, n: u16 :: 0 <= k < |saves| && Current(next) == saves[k].(seqNo := n)
  {
    if saves != [] {
      var mid :| mid != [] && CutDuringSave(cells, saves[0], mid, false) && Attempted(mid, saves[1..], next, false);
      CutSound(cells, saves[0], mid);
      assert Numbered(cells, saves[0]) == saves[0].(seqNo := NextSeqNo(cells));
      if |saves| == 2 {
        assert saves[1..] == [saves[1]];
        var last :| last != [] && CutDuringSave(mid, saves[1], last, false)
                    && Attempted(last, saves[1..][1..], next, false);
        CutSound(mid, saves[1], last);
        assert Numbered(mid, saves[1]) == saves[1].(seqNo := NextSeqNo(mid));
      }
    }
  }

  lemma LosesEffect(cells: Log, r: Reset, next: Log, s: Slot)
    requires Sound(cells) && r.power.Loses? && !r.power.tears && Step(cells, r, next)
    ensures Sound(next)
    ensures var tries := if StartsPending(cells, r, s) && !StartsUncounted(cells, r, next, s) then 1 else 0;
            Weakens(Current(cells), Current(next), tries)
  {
    AttemptedSound(cells, SavesOf(cells, r), next);
  }

  lemma StaysEffect(cells: Log, r: Reset, next: Log, s: Slot)
    requires Sound(cells) && r.power.Stays? && Step(cells, r, next)
    ensures Sound(next) && !StartsUncounted(cells, r, next, s)
    ensures Weakens(Current(cells), Current(next), if StartsPending(cells, r, s) then 1 else 0)
  {
    var saves := SavesOf(cells, r);
    if !r.forced {
      SavesApplied(cells, Current(cells), r.v);
    }
    if saves != [] {
      SavedSound(cells, saves[0]);
      if |saves| == 2 {
        SavedSound(Saved(cells, saves[0]), saves[1]);
      }
    }
  }

  lemma FailsEffect(cells: Log, r: Reset, next: Log)
    requires Sound(cells) && r.power.Fails? && !r.power.tears && Step(cells, r, next)
    ensures Sound(next) && Weakens(Current(cells), Current(next), 0)
  {
    var saves, k := SavesOf(cells, r), r.power.k;
    SavedSound(cells, saves[0]);
    if k == 0 {
      assert AppendAll(cells, saves[..0]) == cells;
      CutSound(cells, saves[0], next);
    } else {
      assert saves[..1] == [saves[0]] && AppendAll(cells, [saves[0]]) == Saved(cells, saves[0]);
      CutSound(Saved(cells, saves[0]), saves[1], next);
    }
  }

  /** With no erase torn, a reset clears pending, or keeps it with the try counted unless it started it uncounted. */
  lemma StepEffect(cells: Log, r: Reset, next: Log, s: Slot)
    requires Sound(cells) && !r.power.Tears() && Step(cells, r, next)
    ensures Sound(next)
    ensures var tries := if StartsPending(cells, r, s) && !StartsUncounted(cells, r, next, s) then 1 else 0;
            Weakens(Current(cells), Current(next), tries)
    ensures StartsUncounted(cells, r, next, s) ==> r.power.Loses?
  {
    match r.power
    case Stays => StaysEffect(cells, r, next, s);
    case Loses(_) => LosesEffect(cells, r, next, s);
    case Fails(_, _) => FailsEffect(cells, r, next);
  }

  /** The logs found at successive resets without confirmation, commit or forced switch in between. */
  ghost predicate Run(logs: seq<Log>, resets: seq<Reset>) {
    |logs| == |resets| + 1 && forall i :: 0 <= i < |resets| ==> Step(logs[i], resets[i], logs[i + 1])
  }

  ghost predicate NoTears(resets: seq<Reset>) {
    forall i :: 0 <= i < |resets| ==> !resets[i].power.Tears()
  }

  /** How often a run starts s as pending. */
  ghost function Starts(logs: seq<Log>, resets: seq<Reset>, s: Slot): nat
    requires |logs| == |resets| + 1
  {
    if resets == [] then 0
    else (if StartsPending(logs[0], resets[0], s) then 1 else 0) + Starts(logs[1..], resets[1..], s)
  }

  /** How often it does so uncounted. */
  ghost function LostStarts(logs: seq<Log>, resets: seq<Reset>, s: Slot): (n: nat)
    requires |logs| == |resets| + 1
    ensures n <= Starts(logs, resets, s)
  {
    if resets == [] then 0
    else (if StartsUncounted(logs[0], resets[0], logs[1], s) then 1 else 0) + LostStarts(logs[1..], resets[1..], s)
  }

  lemma RunTail(logs: seq<Log>, resets: seq<Reset>)
    requires Run(logs, resets) && resets != []
    ensures Run(logs[1..], resets[1..])
  {
    forall i | 0 <= i < |resets[1..]| ensures Step(logs[1..][i], resets[1..][i], logs[1..][i + 1]) {
      assert Step(logs[i + 1], resets[i + 1], logs[i + 2]);
    }
  }

  /** How many tries a record still allows slot s. */
  function Allowance(c: Control, s: Slot): nat {
    if c.pending == s && c.attempts <= MAX_ATTEMPTS then MAX_ATTEMPTS - c.attempts else 0
  }

  /** The next reset finds more tries for slot s than this one left it: an older record is back. */
  predicate Revives(cells: Log, r: Reset, next: Log, s: Slot) {
    var counted := StartsPending(cells, r, s) && !StartsUncounted(cells, r, next, s);
    Allowance(Current(next), s) + (if counted then 1 else 0) > Allowance(Current(cells), s)
  }

  /** How often that happens in a run. */
  ghost function Revivals(logs: seq<Log>, resets: seq<Reset>, s: Slot): nat
    requires |logs| == |resets| + 1
  {
    if resets == [] then 0
    else (if Revives(logs[0], resets[0], logs[1], s) then 1 else 0) + Revivals(logs[1..], resets[1..], s)
  }

  /** For every run: no more starts than tries left, starts that went uncounted, and tries brought back. */
  lemma {:induction false} TriesLeft(logs: seq<Log>, resets: seq<Reset>, s: Slot)
    requires Run(logs, resets)
    ensures Starts(logs, resets, s)
            <= Allowance(Current(logs[0]), s) + LostStarts(logs, resets, s) + MAX_ATTEMPTS * Revivals(logs, resets, s)
    decreases |resets|
  {
    if resets != [] {
      RunTail(logs, resets);
      TriesLeft(logs[1..], resets[1..], s);
    }
  }

  /** Only a torn erase brings tries back. */
  lemma {:induction false} NoTornErase(logs: seq<Log>, resets: seq<Reset>, s: Slot)
    requires Run(logs, resets) && Sound(logs[0]) && NoTears(resets)
    ensures Revivals(logs, resets, s) == 0
    decreases |resets|
  {
    if resets != [] {
      assert Step(logs[0], resets[0], logs[1]);
      StepEffect(logs[0], resets[0], logs[1], s);
      RunTail(logs, resets);
      NoTornErase(logs[1..], resets[1..], s);
    }
  }

  /**
   * A commit makes s pending; then, wherever power fails, only lost saves and torn erases can add to MAX_ATTEMPTS
   * starts: one for each start that went uncounted, and at most MAX_ATTEMPTS for each time that tries came back.
   */
  lemma BoundedTrials(before: Log, c: Control, s: Slot, logs: seq<Log>, resets: seq<Reset>)
    requires c.Legal() && Run(logs, resets) && logs[0] == Saved(before, Boot.Committed(c, s))
    ensures Starts(logs, resets, s)
            <= MAX_ATTEMPTS + LostStarts(logs, resets, s) + MAX_ATTEMPTS * Revivals(logs, resets, s)
    ensures Sound(before) && NoTears(resets) ==>
              Starts(logs, resets, s) <= MAX_ATTEMPTS + LostStarts(logs, resets, s)
  {
    TriesLeft(logs, resets, s);
    if Sound(before) && NoTears(resets) {
      SavedSound(before, Boot.Committed(c, s));
      NoTornErase(logs, resets, s);
    }
  }

  /** A torn erase of a full log can leave any of its records current: all the tries that one had are back. */
  lemma TornEraseRevives(cells: Log, v: Validity, stale: Control) returns (next: Log)
    requires FirstBlank(cells, 0) == |cells| && Good(stale) in cells
    requires Current(cells).pending != SLOT_NONE && !TriesPending(Current(cells), v)
    ensures Step(cells, Reset(v, false, Fails(0, true)), next) && Current(next) == stale
    ensures forall s: Slot :: Allowance(stale, s) > Allowance(Current(cells), s) ==>
                                Revives(cells, Reset(v, false, Fails(0, true)), next, s)
  {
    var saves := SavesOf(cells, Reset(v, false, Fails(0, true)));
    TornEraseRevivesExactly(cells, saves[0], stale);
    var left :| CutDuringSave(cells, saves[0], left, true) && Load(left) == Some(stale);
    CutLegal(cells, saves[0], left);
    assert AppendAll(cells, saves[..0]) == cells;
    next := left;
  }

  lemma CutLegal(cells: Log, r: Control, left: seq<Cell>)
    requires r.Legal() && CutDuringSave(cells, r, left, true)
    ensures left != [] && LegalCells(left)
  {
  }

  /** A save that takes effect counts a lost one nowhere: without lost saves no start is uncounted. */
  lemma {:induction false} NoLostSaves(logs: seq<Log>, resets: seq<Reset>, s: Slot)
    requires Run(logs, resets) && Sound(logs[0]) && NoTears(resets)
    requires forall i :: 0 <= i < |resets| ==> !resets[i].power.Loses?
    ensures LostStarts(logs, resets, s) == 0
    decreases |resets|
  {
    if resets != [] {
      assert Step(logs[0], resets[0], logs[1]);
      StepEffect(logs[0], resets[0], logs[1], s);
      RunTail(logs, resets);
      NoLostSaves(logs[1..], resets[1..], s);
    }
  }

  // The bound is reached.

  const BOTH := Validity(true, true)

  lemma RunGrows(first: Log, r: Reset, logs: seq<Log>, resets: seq<Reset>)
    requires Run(logs, resets) && Step(first, r, logs[0])
    ensures Run([first] + logs, [r] + resets)
    ensures ([first] + logs)[1..] == logs && ([r] + resets)[1..] == resets
  {
    var ls, rs := [first] + logs, [r] + resets;
    forall i | 0 <= i < |rs| ensures Step(ls[i], rs[i], ls[i + 1]) {
      if i > 0 {
        assert Step(logs[i - 1], resets[i - 1], logs[i]);
      }
    }
  }

  /** Every try left is used when power holds. */
  lemma {:induction false} UseTries(cells: Log, s: Slot) returns (logs: seq<Log>, resets: seq<Reset>)
    requires Sound(cells) && Current(cells).pending == s && Current(cells).attempts <= MAX_ATTEMPTS
    ensures Run(logs, resets) && logs[0] == cells && NoTears(resets)
    ensures Starts(logs, resets, s) == MAX_ATTEMPTS - Current(cells).attempts && LostStarts(logs, resets, s) == 0
    decreases MAX_ATTEMPTS - Current(cells).attempts
  {
    var c := Current(cells);
    if c.attempts == MAX_ATTEMPTS {
      logs, resets := [cells], [];
    } else {
      var counted := c.(attempts := c.attempts + 1);
      SavedSound(cells, counted);
      SavesApplied(cells, c, BOTH);
      var rest, later := UseTries(Saved(cells, counted), s);
      var r := Reset(BOTH, false, Stays);
      RunGrows(cells, r, rest, later);
      logs, resets := [cells] + rest, [r] + later;
    }
  }

  /** A save that leaves the log alone starts the slot and counts nothing, as often as one likes. */
  lemma {:induction false} LoseTries(cells: Log, s: Slot, n: nat) returns (logs: seq<Log>, resets: seq<Reset>)
    requires Sound(cells) && Current(cells).pending == s && Current(cells).attempts < MAX_ATTEMPTS
    ensures Run(logs, resets) && logs[0] == cells && NoTears(resets)
    ensures Starts(logs, resets, s) == MAX_ATTEMPTS - Current(cells).attempts + n && LostStarts(logs, resets, s) == n
    decreases n
  {
    if n == 0 {
      logs, resets := UseTries(cells, s);
    } else {
      var rest, later := LoseTries(cells, s, n - 1);
      var r := Reset(BOTH, false, Loses(false));
      StayLost(cells, r);
      RunGrows(cells, r, rest, later);
      logs, resets := [cells] + rest, [r] + later;
    }
  }

  lemma StayLost(cells: Log, r: Reset)
    requires r.power.Loses? && !r.forced && TriesPending(Current(cells), r.v)
    ensures Step(cells, r, cells)
  {
    var saves, tears := SavesOf(cells, r), r.power.tears;
    assert |saves| == 1 && saves[1..] == [];
    assert CutDuringSave(cells, saves[0], cells, tears) && Attempted(cells, saves[1..], cells, tears);
  }

  /** With no erase torn, runs from a commit with at most n uncounted starts keep to MAX_ATTEMPTS exactly if n is 0. */
  lemma TrialBoundIsExact(before: Log, c: Control, s: Slot, n: nat)
    requires Sound(before) && c.Legal()
    ensures (forall logs: seq<Log>, resets: seq<Reset> ::
               && Run(logs, resets) && logs[0] == Saved(before, Boot.Committed(c, s)) && NoTears(resets)
               && LostStarts(logs, resets, s) <= n
               ==> Starts(logs, resets, s) <= MAX_ATTEMPTS)
            <==> n == 0
  {
    var cells := Saved(before, Boot.Committed(c, s));
    SavedSound(before, Boot.Committed(c, s));
    if n == 0 {
      forall logs: seq<Log>, resets: seq<Reset> |
        Run(logs, resets) && logs[0] == cells && NoTears(resets) && LostStarts(logs, resets, s) <= n
        ensures Starts(logs, resets, s) <= MAX_ATTEMPTS
      {
        BoundedTrials(before, c, s, logs, resets);
      }
    } else {
      var logs, resets := LoseTries(cells, s, n);
      assert Run(logs, resets) && LostStarts(logs, resets, s) == n && Starts(logs, resets, s) == MAX_ATTEMPTS + n;
    }
  }

  /** Once the tries are used up the next decision drops the pending slot and falls back to a valid active one. */
  lemma FallbackAfterTrials(cells: Log, v: Validity, next: Log)
    requires Sound(cells) && Current(cells).pending != SLOT_NONE && !TriesPending(Current(cells), v)
    requires Step(cells, Reset(v, false, Stays), next)
    ensures Sound(next) && Current(next).pending == SLOT_NONE && Current(next).attempts == 0
    ensures var c := Current(cells);
            v.Of(c.active) ==> Decide(c, v) == StartApp(c.active) && Current(next).active == c.active
  {
    var c := Current(cells);
    SavesApplied(cells, c, v);
    SavedSound(cells, ClearedPending(c));
    SavedSound(Saved(cells, ClearedPending(c)), Fallback(c));
  }

  /**
   * What a decision leaves when its saves are made. A trial is counted and nothing else changes. Otherwise nothing is
   * pending, the slot that starts is the active one - confirmed as it was, or not at all if it was not active before -
   * and the next decision is the same again.
   */
  lemma DecisionSettles(cells: Log, v: Validity)
    requires Sound(cells)
    ensures var c, d, after := Current(cells), Decide(Current(cells), v), AppendAll(cells, Saves(Current(cells), v));
            && Sound(after)
            && var c' := Current(after);
            && (TriesPending(c, v) ==>
                  c'.(seqNo := 0) == c.(seqNo := 0, attempts := c.attempts + 1))
            && (!TriesPending(c, v) ==> c'.pending == SLOT_NONE && Decide(c', v) == d)
            && (!TriesPending(c, v) && d.StartApp? ==>
                  && c'.active == d.slot
                  && c'.confirmed == if c.active == d.slot then c.confirmed else 0)
            && (d == EnterDfu ==> c'.active == c.active && c'.confirmed == c.confirmed)
  {
    var c := Current(cells);
    var saves := Saves(c, v);
    SavesApplied(cells, c, v);
    if saves != [] {
      SavedSound(cells, saves[0]);
      if |saves| == 2 {
        SavedSound(Saved(cells, saves[0]), saves[1]);
      }
    }
  }

  /** With saves that never take effect any number of resets start the pending slot, none of them counted. */
  lemma {:induction false} FailedSavesNeverGiveUp(cells: Log, v: Validity, n: nat)
    requires TriesPending(Current(cells), v)
    ensures var logs, resets := seq(n + 1, _ => cells), seq(n, _ => Reset(v, false, Loses(false)));
            var s := Current(cells).pending;
            Run(logs, resets) && Starts(logs, resets, s) == LostStarts(logs, resets, s) == n
  {
    if n > 0 {
      FailedSavesNeverGiveUp(cells, v, n - 1);
      StayLost(cells, Reset(v, false, Loses(false)));
      assert seq(n, _ => Reset(v, false, Loses(false)))[1..] == seq(n - 1, _ => Reset(v, false, Loses(false)));
      assert seq(n + 1, _ => cells)[1..] == seq(n, _ => cells);
    }
  }
}
