/** Slot validity, the boot decision and the commit of a new image (bootloader/src/boot.c). */
module Boot {
  import opened Bytes
  import opened Layout
  import opened Nor
  import opened ControlLog
  import opened BootMeta

  const MAX_ATTEMPTS := 3

  function HeaderBytes(m: Mem, slot: byte): (b: seq<byte>)
    ensures |b| == HEADER_SIZE
  {
    m[SlotOffset(slot)..SlotOffset(slot) + HEADER_SIZE]
  }

  function Payload(m: Mem, slot: byte, size: nat): seq<byte>
    requires size <= SLOT_SIZE - HEADER_SIZE
  {
    m[SlotOffset(slot) + HEADER_SIZE..SlotOffset(slot) + HEADER_SIZE + size]
  }

  /** A slot that may be started: legal header, and a payload with the checksum the header names. */
  predicate SlotValid(crc: Checksum, m: Mem, slot: byte) {
    && slot < SLOT_COUNT
    && var b := HeaderBytes(m, slot);
       && HeaderValid(crc, b, slot)
       && crc(Payload(m, slot, ParseHeader(b).imageSize)) == ParseHeader(b).imageCrc
  }

  ghost predicate SomeSlotValid(crc: Checksum, m: Mem) {
    SlotValid(crc, m, 0) || SlotValid(crc, m, 1)
  }

  /** Two images with the same bytes in a slot. */
  ghost predicate SameSlot(m: Mem, m': Mem, slot: byte) {
    m[SlotOffset(slot)..SlotOffset(slot) + SLOT_SIZE] == m'[SlotOffset(slot)..SlotOffset(slot) + SLOT_SIZE]
  }

  lemma SameSlotSameValidity(crc: Checksum, m: Mem, m': Mem, slot: byte)
    requires SameSlot(m, m', slot)
    ensures SlotValid(crc, m, slot) == SlotValid(crc, m', slot)
  {
    var lo, hi := SlotOffset(slot), SlotOffset(slot) + SLOT_SIZE;
    SliceOfSlice(m, lo, hi, 0, HEADER_SIZE);
    SliceOfSlice(m', lo, hi, 0, HEADER_SIZE);
    var size := ParseHeader(HeaderBytes(m, slot)).imageSize;
    if size <= SLOT_SIZE - HEADER_SIZE {
      SliceOfSlice(m, lo, hi, HEADER_SIZE, HEADER_SIZE + size);
      SliceOfSlice(m', lo, hi, HEADER_SIZE, HEADER_SIZE + size);
    }
  }

  /** Nothing below the slots matters to them. */
  lemma SlotsUntouched(crc: Checksum, m: Mem, m': Mem, hi: nat)
    requires OnlyWithin(m, m', 0, hi) && hi <= SLOT_A
    ensures SameSlot(m, m', 0) && SameSlot(m, m', 1)
    ensures SlotValid(crc, m, 0) == SlotValid(crc, m', 0) && SlotValid(crc, m, 1) == SlotValid(crc, m', 1)
  {
    SameSlotSameValidity(crc, m, m', 0);
    SameSlotSameValidity(crc, m, m', 1);
  }

  datatype Decision = StartApp(slot: Slot) | EnterDfu

  /** Which slots pass boot_slot_valid. */
  datatype Validity = Validity(a: bool, b: bool) {
    predicate Of(slot: byte) { if slot == 0 then a else slot == 1 && b }
  }

  function ValidityOf(crc: Checksum, m: Mem): Validity {
    Validity(SlotValid(crc, m, 0), SlotValid(crc, m, 1))
  }

  predicate TriesPending(c: Control, v: Validity) {
    c.pending != SLOT_NONE && v.Of(c.pending) && c.attempts + 1 <= MAX_ATTEMPTS
  }

  function Other(slot: Slot): Slot { 1 - slot }

  /** The order of preference: a pending slot with attempts left, the active slot, the other one, DFU. */
  function Decide(c: Control, v: Validity): Decision
    requires c.Legal()
  {
    if TriesPending(c, v) then StartApp(c.pending)
    else if v.Of(c.active) then StartApp(c.active)
    else if v.Of(Other(c.active)) then StartApp(Other(c.active))
    else EnterDfu
  }

  function ClearedPending(c: Control): Control { c.(pending := SLOT_NONE, attempts := 0) }

  function Fallback(c: Control): Control
    requires c.Legal()
  {
    c.(active := Other(c.active), pending := SLOT_NONE, attempts := 0, confirmed := 0)
  }

  /** The control records a decision saves, in order. */
  function Saves(c: Control, v: Validity): (s: seq<Control>)
    requires c.Legal()
    ensures forall r :: r in s ==> r.Legal()
  {
    if TriesPending(c, v) then [c.(attempts := c.attempts + 1)]
    else
      (if c.pending != SLOT_NONE then [ClearedPending(c)] else [])
      + if !v.Of(c.active) && v.Of(Other(c.active)) then [Fallback(c)] else []
  }

  /** The log after a save that completes. */
  function Saved(cells: seq<Cell>, r: Control): (s: seq<Cell>)
    requires cells != []
    ensures |s| == |cells|
  {
    Append(cells, Good(Numbered(cells, r)))
  }

  function AppendAll(cells: seq<Cell>, rs: seq<Control>): (s: seq<Cell>)
    requires cells != []
    ensures |s| == |cells|
    decreases |rs|
  {
    if rs == [] then cells else AppendAll(Saved(cells, rs[0]), rs[1..])
  }

  /** The log once a decision has made all its saves. */
  lemma SavesApplied(cells: seq<Cell>, c: Control, v: Validity)
    requires cells != [] && c.Legal()
    ensures AppendAll(cells, Saves(c, v)) ==
            if TriesPending(c, v) then Saved(cells, c.(attempts := c.attempts + 1))
            else
              var cleared := if c.pending != SLOT_NONE then Saved(cells, ClearedPending(c)) else cells;
              if !v.Of(c.active) && v.Of(Other(c.active)) then Saved(cleared, Fallback(c)) else cleared
  {
    var s := Saves(c, v);
    assert |s| <= 2;
    if s != [] {
      var first := Saved(cells, s[0]);
      assert AppendAll(cells, s) == AppendAll(first, s[1..]);
      assert AppendAll(first, s[1..]) == if |s| == 1 then first else Saved(first, s[1]);
    }
  }

  method ClearPending(crc: Checksum, flash: Flash) returns (ok: bool)
    requires flash.Valid()
    modifies flash
    ensures flash.Valid() && OnlyWithin(old(flash.mem), flash.mem, CONTROL, CONTROL + SECTOR_SIZE)
    ensures flash.exposed <= old(flash.exposed) + Cuts(old(flash.mem), CONTROL, CONTROL + SECTOR_SIZE)
    ensures flash.failures >= old(flash.failures) && (ok <==> flash.failures == old(flash.failures))
    ensures var was := Cells(crc, old(flash.mem));
            ok ==> Cells(crc, flash.mem) == Saved(was, ClearedPending(ControlOf(crc, old(flash.mem))))
  {
    var loaded := ControlLoad(crc, flash);
    var c := if loaded.None? then DEFAULTS else loaded.value;
    ok := ControlSave(crc, flash, c.(pending := SLOT_NONE, attempts := 0));
  }

  /** First half of the decision: try the pending slot, or drop it. */
  method SettlePending(crc: Checksum, flash: Flash, ctl: Control) returns (tried: bool, saved: bool)
    requires flash.Valid() && ctl == ControlOf(crc, flash.mem)
    modifies flash
    ensures flash.Valid() && OnlyWithin(old(flash.mem), flash.mem, CONTROL, CONTROL + SECTOR_SIZE)
    ensures flash.exposed <= old(flash.exposed) + Cuts(old(flash.mem), CONTROL, CONTROL + SECTOR_SIZE)
    ensures flash.failures >= old(flash.failures) && (saved <==> flash.failures == old(flash.failures))
    ensures tried == TriesPending(ctl, old(ValidityOf(crc, flash.mem)))
    ensures var was := Cells(crc, old(flash.mem));
            saved ==> Cells(crc, flash.mem) ==
                      if tried then Saved(was, ctl.(attempts := ctl.attempts + 1))
                      else if ctl.pending != SLOT_NONE then Saved(was, ClearedPending(ctl)) else was
  {
    tried, saved := false, true;
    if ctl.pending != SLOT_NONE {
      if !SlotValid(crc, flash.mem, ctl.pending) {
        saved := ClearPending(crc, flash);
      } else if ctl.attempts + 1 > MAX_ATTEMPTS {
        saved := ClearPending(crc, flash);
      } else {
        tried := true;
        saved := ControlSave(crc, flash, ctl.(attempts := ctl.attempts + 1));
      }
    }
  }

  /** Second half: the active slot, the other one, or DFU. */
  method SettleActive(crc: Checksum, flash: Flash, ctl: Control) returns (d: Decision, saved: bool)
    requires flash.Valid() && ctl.Legal()
    modifies flash
    ensures flash.Valid() && OnlyWithin(old(flash.mem), flash.mem, CONTROL, CONTROL + SECTOR_SIZE)
    ensures flash.exposed <= old(flash.exposed) + Cuts(old(flash.mem), CONTROL, CONTROL + SECTOR_SIZE)
    ensures flash.failures >= old(flash.failures) && (saved <==> flash.failures == old(flash.failures))
    ensures var was, v := Cells(crc, old(flash.mem)), old(ValidityOf(crc, flash.mem));
            && d == (if v.Of(ctl.active) then StartApp(ctl.active)
                     else if v.Of(Other(ctl.active)) then StartApp(Other(ctl.active)) else EnterDfu)
            && (saved ==> Cells(crc, flash.mem) ==
                          if !v.Of(ctl.active) && v.Of(Other(ctl.active)) then Saved(was, Fallback(ctl)) else was)
  {
    if SlotValid(crc, flash.mem, ctl.active) {
      return StartApp(ctl.active), true;
    }
    if SlotValid(crc, flash.mem, Other(ctl.active)) {
      saved := ControlSave(crc, flash, Fallback(ctl));
      return StartApp(Other(ctl.active)), saved;
    }
    return EnterDfu, true;
  }

  /** The decision; `saved` tells whether the saves whose results it ignores all succeeded. */
  method BootDecide(crc: Checksum, flash: Flash, forceDfu: bool) returns (d: Decision, ghost saved: bool)
    requires flash.Valid()
    modifies flash
    ensures flash.Valid() && OnlyWithin(old(flash.mem), flash.mem, CONTROL, CONTROL + SECTOR_SIZE)
    ensures flash.exposed <= old(flash.exposed) + Cuts(old(flash.mem), CONTROL, CONTROL + SECTOR_SIZE)
    ensures ValidityOf(crc, flash.mem) == old(ValidityOf(crc, flash.mem))
    ensures flash.failures >= old(flash.failures) && (saved <==> flash.failures == old(flash.failures))
    ensures forceDfu ==> d == EnterDfu && flash.mem == old(flash.mem)
    ensures var c, v := ControlOf(crc, old(flash.mem)), ValidityOf(crc, old(flash.mem));
            !forceDfu ==>
              && d == Decide(c, v)
              && (saved ==> Cells(crc, flash.mem) == AppendAll(Cells(crc, old(flash.mem)), Saves(c, v)))
  {
    if forceDfu {
      return EnterDfu, true;
    }
    var loaded := ControlLoad(crc, flash);
    var ctl := if loaded.None? then DEFAULTS else loaded.value;
    SavesApplied(Cells(crc, flash.mem), ctl, ValidityOf(crc, flash.mem));
    var tried, firstSaved := SettlePending(crc, flash, ctl);
    SlotsUntouched(crc, old(flash.mem), flash.mem, CONTROL + SECTOR_SIZE);
    if tried {
      return StartApp(ctl.pending), firstSaved;
    }
    CutsWithin(old(flash.mem), flash.mem, CONTROL, CONTROL + SECTOR_SIZE, CONTROL, CONTROL + SECTOR_SIZE);
    var secondSaved;
    d, secondSaved := SettleActive(crc, flash, ctl);
    SlotsUntouched(crc, old(flash.mem), flash.mem, CONTROL + SECTOR_SIZE);
    saved := firstSaved && secondSaved;
  }

  /** An unforced decision starts an application exactly when some slot is valid, and then a valid one. */
  lemma DecisionIsBootable(c: Control, v: Validity)
    requires c.Legal()
    ensures Decide(c, v).StartApp? <==> v.a || v.b
    ensures Decide(c, v).StartApp? ==> v.Of(Decide(c, v).slot)
  {
  }

  /** Without a control record slot 0 is started if valid, else slot 1, else there is DFU; nothing is pending. */
  lemma WithoutRecord(cells: seq<Cell>, v: Validity)
    requires LegalCells(cells) && Load(cells).None?
    ensures Decide(Current(cells), v) == if v.a then StartApp(0) else if v.b then StartApp(1) else EnterDfu
    ensures Current(cells).pending == SLOT_NONE && Current(cells).attempts == 0 && Current(cells).confirmed == 0
  {
  }

  /** No save of a decision makes a slot pending that was not: only a commit does. */
  lemma DecisionsMakeNothingPending(c: Control, v: Validity, k: nat)
    requires c.Legal() && k < |Saves(c, v)|
    ensures var r := Saves(c, v)[k];
            || r.pending == SLOT_NONE
            || (r.pending == c.pending && TriesPending(c, v) && r.attempts == c.attempts + 1 <= MAX_ATTEMPTS)
  {
  }

  /** Some reset could still try an update in a slot other than this one. */
  ghost predicate OtherUpdateLives(c: Control, slot: Slot)
    requires c.Legal()
  {
    c.pending != slot && exists v: Validity :: TriesPending(c, v)
  }

  /**
   * A confirmation is promised for a slot that is pending. Called for any slot it makes that slot the one started, and
   * it ends another slot's update exactly if one was pending there with attempts left.
   */
  lemma ConfirmEndsOtherUpdate(cells: seq<Cell>, slot: Slot, v: Validity)
    requires cells != [] && LegalCells(cells) && (Confirmation(Load(cells), slot).Some? ==> SaveTakes(cells))
    ensures LegalCells(AfterConfirm(cells, slot))
    ensures var before, after := Current(cells), Current(AfterConfirm(cells, slot));
            && (OtherUpdateLives(before, slot) && !OtherUpdateLives(after, slot) <==>
                before.pending !in {SLOT_NONE, slot} && before.attempts < MAX_ATTEMPTS)
            && (v.Of(slot) ==> Decide(after, v) == StartApp(slot))
  {
    ConfirmTakesEffect(cells, slot);
    AfterConfirmLegal(cells, slot);
    var before := Current(cells);
    if before.pending !in {SLOT_NONE, slot} && before.attempts < MAX_ATTEMPTS {
      assert TriesPending(before, Validity(true, true));
    }
  }

  lemma AfterConfirmLegal(cells: seq<Cell>, slot: Slot)
    requires cells != [] && LegalCells(cells)
    ensures LegalCells(AfterConfirm(cells, slot))
  {
  }

  /** Append the FLASHING record of a download that begins. */
  method MarkFlashing(crc: Checksum, flash: Flash, slot: byte, h: Header) returns (ok: bool)
    requires flash.Valid()
    modifies flash
    ensures flash.Valid() && OnlyWithin(old(flash.mem), flash.mem, META_A, CONTROL)
    ensures flash.exposed <= old(flash.exposed) + Cuts(old(flash.mem), META_A, CONTROL)
    ensures flash.failures >= old(flash.failures)
    ensures ok <==> slot < SLOT_COUNT && flash.failures == old(flash.failures)
    ensures ok ==> flash.mem == Appended(old(flash.mem), MetaOffset(slot),
                                         ImageRecord(crc, STATE_FLASHING, h.imageSize, 0, h.imageVersion))
  {
    if slot >= SLOT_COUNT {
      return false;
    }
    CutsWithin(flash.mem, flash.mem, MetaOffset(slot), MetaOffset(slot) + SECTOR_SIZE, META_A, CONTROL);
    ok := ImageRecordAppend(crc, flash, MetaOffset(slot), STATE_FLASHING, h.imageSize, 0, h.imageVersion);
  }

  /** Append the READY record, then make the slot pending. */
  method SlotCommit(crc: Checksum, flash: Flash, slot: byte, h: Header, imageCrc: u32) returns (ok: bool)
    requires flash.Valid()
    modifies flash
    ensures flash.Valid() && OnlyWithin(old(flash.mem), flash.mem, META_A, CONTROL + SECTOR_SIZE)
    ensures flash.exposed <= old(flash.exposed) + Cuts(old(flash.mem), META_A, CONTROL + SECTOR_SIZE)
    ensures flash.failures >= old(flash.failures)
    ensures ok <==> slot < SLOT_COUNT && flash.failures == old(flash.failures)
    ensures var was := Cells(crc, old(flash.mem));
            ok ==> Cells(crc, flash.mem) == Saved(was, Committed(ControlOf(crc, old(flash.mem)), slot))
  {
    if slot >= SLOT_COUNT {
      return false;
    }
    ghost var m0 := flash.mem;
    CutsWithin(m0, m0, MetaOffset(slot), MetaOffset(slot) + SECTOR_SIZE, META_A, CONTROL + SECTOR_SIZE);
    ok := ImageRecordAppend(crc, flash, MetaOffset(slot), STATE_READY, h.imageSize, imageCrc, h.imageVersion);
    if !ok {
      return;
    }
    SameControl(crc, m0, flash.mem);
    CutsWithin(m0, flash.mem, CONTROL, CONTROL + SECTOR_SIZE, META_A, CONTROL + SECTOR_SIZE);
    var loaded := ControlLoad(crc, flash);
    var c := if loaded.None? then DEFAULTS else loaded.value;
    ok := ControlSave(crc, flash, Committed(c, slot));
  }

  function Committed(c: Control, slot: byte): Control {
    c.(pending := slot, attempts := 0, confirmed := 0)
  }

  lemma SameControl(crc: Checksum, m: Mem, m': Mem)
    requires m[CONTROL..CONTROL + SECTOR_SIZE] == m'[CONTROL..CONTROL + SECTOR_SIZE]
    ensures Cells(crc, m) == Cells(crc, m')
  {
    forall i | 0 <= i < CELL_COUNT ensures CellBytes(m, i) == CellBytes(m', i) {
      SliceOfSlice(m, CONTROL, CONTROL + SECTOR_SIZE, RECORD_SIZE * i, RECORD_SIZE * (i + 1));
      SliceOfSlice(m', CONTROL, CONTROL + SECTOR_SIZE, RECORD_SIZE * i, RECORD_SIZE * (i + 1));
    }
    assert forall i :: 0 <= i < CELL_COUNT ==> Cells(crc, m)[i] == Decode(crc, CellBytes(m, i));
    assert forall i :: 0 <= i < CELL_COUNT ==> Cells(crc, m')[i] == Decode(crc, CellBytes(m', i));
  }
}
