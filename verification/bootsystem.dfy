/**
 * Whole power cycles (bootloader/src/main.c, App/Platform/Src/app_boot.c): the decision, then either the
 * application or a DFU run, with power failing at any moment.
 */
module BootSystem {
  import opened Bytes
  import opened Layout
  import opened Options
  import opened Nor
  import opened ControlLog
  import opened BootMeta
  import opened Boot
  import opened Dfu
  import opened DfuRuns

  /** What a running application does to the control log. */
  datatype AppEvent = Confirm(slot: byte) | SetActive(slot: byte)

  /** Where a download goes. */
  function TargetSlot(c: Control, v: Validity): Slot
    requires c.Legal()
  {
    if v.Of(c.active) then Other(c.active) else c.active
  }

  /**
   * A download goes to the active slot exactly if that is not valid; some valid slot lies outside the target exactly
   * when there is a valid slot at all.
   */
  lemma TargetIsNeverTheOnlyValid(c: Control, v: Validity)
    requires c.Legal()
    ensures TargetSlot(c, v) == c.active <==> !v.Of(c.active)
    ensures v.Of(Other(TargetSlot(c, v))) <==> v.a || v.b
  {
  }

  /** What one power cycle may do to flash: touch metadata and one slot, never the only valid one. */
  ghost predicate CycleEffect(crc: Checksum, m: Mem, m': Mem) {
    exists target: Slot :: Spares(crc, m, target) && Confined(m, m', target, META_END)
  }

  /** ... and the active slot only if it is not valid. */
  ghost predicate SafeCycle(crc: Checksum, m: Mem, m': Mem) {
    CycleEffect(crc, m, m') && KeepsActive(crc, m, m')
  }

  ghost predicate Spares(crc: Checksum, m: Mem, target: Slot) {
    SomeSlotValid(crc, m) ==> SlotValid(crc, m, Other(target))
  }

  /** The slot that the control record in flash names as active. */
  function ActiveSlot(crc: Checksum, m: Mem): Slot { ControlOf(crc, m).active }

  /** If the active slot is valid it stays so, byte for byte. */
  ghost predicate KeepsActive(crc: Checksum, m: Mem, m': Mem) {
    var slot := ActiveSlot(crc, m);
    SlotValid(crc, m, slot) ==> SlotValid(crc, m', slot) && SameSlot(m, m', slot)
  }

  /** Writing another slot and the metadata keeps the active one; writing metadata alone keeps both. */
  lemma OtherTargetKeeps(crc: Checksum, m: Mem, m': Mem, target: Slot)
    requires Confined(m, m', target, META_END)
    requires target != ActiveSlot(crc, m) || !SlotValid(crc, m, ActiveSlot(crc, m))
    ensures KeepsActive(crc, m, m')
  {
    var slot := ActiveSlot(crc, m);
    if SlotValid(crc, m, slot) {
      assert slot == Other(target);
      ConfinedKeepsOther(crc, m, m', target);
      assert SameSlot(m, m', slot);
    }
  }

  lemma MetaKeeps(crc: Checksum, m: Mem, m': Mem)
    requires OnlyWithin(m, m', CONTROL, META_END)
    ensures KeepsActive(crc, m, m')
  {
    SlotsUntouched(crc, m, m', META_END);
    assert ActiveSlot(crc, m) == 0 || ActiveSlot(crc, m) == 1;
  }

  /** app_boot_set_active: make a slot active, unconfirmed, with nothing pending. */
  method SetActiveSlot(crc: Checksum, flash: Flash, slot: byte) returns (ok: bool)
    requires flash.Valid()
    modifies flash
    ensures flash.Valid() && OnlyWithin(old(flash.mem), flash.mem, CONTROL, META_END)
    ensures flash.exposed <= old(flash.exposed) + Cuts(old(flash.mem), CONTROL, META_END)
    ensures flash.failures >= old(flash.failures)
    ensures ok <==> slot < SLOT_COUNT && flash.failures == old(flash.failures)
    ensures var was, c := Cells(crc, old(flash.mem)), ControlOf(crc, old(flash.mem));
            ok ==> Cells(crc, flash.mem)
                   == Saved(was, c.(active := slot, pending := SLOT_NONE, attempts := 0, confirmed := 0))
  {
    if slot >= SLOT_COUNT {
      return false;
    }
    var loaded := ControlLoad(crc, flash);
    var c := if loaded.None? then DEFAULTS else loaded.value;
    ok := ControlSave(crc, flash, c.(active := slot, pending := SLOT_NONE, attempts := 0, confirmed := 0));
  }

  method RunApp(crc: Checksum, flash: Flash, events: seq<AppEvent>)
    requires flash.Valid()
    modifies flash
    ensures flash.Valid() && OnlyWithin(old(flash.mem), flash.mem, CONTROL, META_END)
    ensures flash.exposed <= old(flash.exposed) + Cuts(old(flash.mem), CONTROL, META_END)
  {
    for i := 0 to |events|
      invariant flash.Valid() && OnlyWithin(old(flash.mem), flash.mem, CONTROL, META_END)
      invariant flash.exposed <= old(flash.exposed) + Cuts(old(flash.mem), CONTROL, META_END)
    {
      CutsWithin(old(flash.mem), flash.mem, CONTROL, META_END, CONTROL, META_END);
      var ok: bool;
      match events[i]
      case Confirm(slot) => ok := ConfirmRunningSlot(crc, flash, slot);
      case SetActive(slot) => ok := SetActiveSlot(crc, flash, slot);
    }
  }

  /** One power cycle, from reset until power fails or the device resets itself. */
  method PowerCycle(crc: Checksum, flash: Flash, dfuRequested: bool, app: seq<AppEvent>, usb: seq<UsbEvent>)
    returns (d: Decision)
    requires flash.Valid() && flash.exposed == iset{flash.mem}
    modifies flash
    ensures flash.Valid()
    ensures dfuRequested ==> d == Decision.EnterDfu
    ensures !dfuRequested ==> d == Decide(ControlOf(crc, old(flash.mem)), ValidityOf(crc, old(flash.mem)))
    ensures forall m :: m in flash.exposed ==> SafeCycle(crc, old(flash.mem), m)
  {
    ghost var m0 := flash.mem;
    ghost var saved;
    d, saved := BootDecide(crc, flash, dfuRequested);
    ghost var m1 := flash.mem;
    ghost var spare := SpareTarget(crc, m0);
    MetaCycle(crc, m0, m1, spare);
    if d.StartApp? {
      CutsWithin(m0, m1, CONTROL, META_END, CONTROL, META_END);
      RunApp(crc, flash, app);
    } else {
      ghost var target, trace;
      var statuses;
      statuses, target, trace := EnterDfu(crc, flash, usb);
      DecisionIsBootable(ControlOf(crc, m0), ValidityOf(crc, m0));
      DfuCycle(crc, m0, m1, target);
    }
  }

  /** The DFU branch of main: choose the slot that spares a valid active one, and serve the host. */
  method EnterDfu(crc: Checksum, flash: Flash, usb: seq<UsbEvent>)
    returns (statuses: seq<Status>, ghost target: Slot, ghost trace: seq<Moment>)
    requires flash.Valid()
    modifies flash
    ensures target == TargetSlot(ControlOf(crc, old(flash.mem)), ValidityOf(crc, old(flash.mem)))
    ensures target == ActiveSlot(crc, old(flash.mem)) <==>
            !SlotValid(crc, old(flash.mem), ActiveSlot(crc, old(flash.mem)))
    ensures KeepsActive(crc, old(flash.mem), flash.mem)
    ensures forall m :: m in flash.exposed ==> m in old(flash.exposed) || KeepsActive(crc, old(flash.mem), m)
    ensures flash.Valid() && Confined(old(flash.mem), flash.mem, target, META_END)
    ensures flash.exposed <= old(flash.exposed) + SessionCuts(old(flash.mem), target, META_END)
    ensures Trace(crc, target, usb, statuses, trace)
    ensures trace[0] == Moment(old(flash.mem), old(flash.exposed), old(flash.failures), None)
    ensures var last := trace[|usb|];
            last.mem == flash.mem && last.cuts == flash.exposed && last.failures == flash.failures
  {
    var loaded := ControlLoad(crc, flash);
    var c := if loaded.None? then DEFAULTS else loaded.value;
    var activeValid := SlotValid(crc, flash.mem, c.active);
    var slot: Slot := if activeValid then Other(c.active) else c.active;
    target := slot;
    statuses, trace := DfuRun(crc, flash, slot, usb);
    TargetKeeps(crc, old(flash.mem), target);
  }

  /** A target that spares a valid slot, if there is one. */
  ghost function SpareTarget(crc: Checksum, m: Mem): (t: Slot)
    ensures Spares(crc, m, t)
  {
    if SlotValid(crc, m, 0) then 1 else 0
  }

  lemma MetaCycle(crc: Checksum, m0: Mem, m1: Mem, spare: Slot)
    requires Spares(crc, m0, spare) && OnlyWithin(m0, m1, CONTROL, META_END)
    ensures forall m :: m in Cuts(m0, CONTROL, META_END) ==> SafeCycle(crc, m0, m)
    ensures SafeCycle(crc, m0, m0)
  {
    forall m | m in Cuts(m0, CONTROL, META_END) ensures SafeCycle(crc, m0, m) {
      MetaEffect(crc, m0, m, spare);
    }
    MetaEffect(crc, m0, m0, spare);
  }

  lemma MetaEffect(crc: Checksum, m0: Mem, m: Mem, spare: Slot)
    requires Spares(crc, m0, spare) && OnlyWithin(m0, m, CONTROL, META_END)
    ensures SafeCycle(crc, m0, m)
  {
    assert Confined(m0, m, spare, META_END);
    MetaKeeps(crc, m0, m);
  }

  lemma TargetKeeps(crc: Checksum, m0: Mem, target: Slot)
    requires target != ActiveSlot(crc, m0) || !SlotValid(crc, m0, ActiveSlot(crc, m0))
    ensures forall m :: m in SessionCuts(m0, target, META_END) ==> KeepsActive(crc, m0, m)
  {
    forall m | m in SessionCuts(m0, target, META_END) ensures KeepsActive(crc, m0, m) {
      OtherTargetKeeps(crc, m0, m, target);
    }
  }

  /** A DFU run after a decision that was forced, or that found no slot to start. */
  lemma DfuCycle(crc: Checksum, m0: Mem, m1: Mem, target: Slot)
    requires OnlyWithin(m0, m1, CONTROL, META_END) && (m1 == m0 || !SomeSlotValid(crc, m0))
    requires target == TargetSlot(ControlOf(crc, m1), ValidityOf(crc, m1))
    ensures forall m :: m in SessionCuts(m1, target, META_END) ==> SafeCycle(crc, m0, m)
  {
    SlotsUntouched(crc, m0, m1, META_END);
    TargetIsNeverTheOnlyValid(ControlOf(crc, m1), ValidityOf(crc, m1));
    assert Spares(crc, m0, target);
    forall m | m in SessionCuts(m1, target, META_END) ensures SafeCycle(crc, m0, m) {
      TargetEffect(crc, m0, m1, m, target);
    }
  }

  lemma TargetEffect(crc: Checksum, m0: Mem, m1: Mem, m: Mem, target: Slot)
    requires Spares(crc, m0, target) && OnlyWithin(m0, m1, CONTROL, META_END) && Confined(m1, m, target, META_END)
    requires if m1 == m0 then target != ActiveSlot(crc, m0) || !SlotValid(crc, m0, ActiveSlot(crc, m0))
             else !SomeSlotValid(crc, m0)
    ensures SafeCycle(crc, m0, m)
  {
    assert Confined(m0, m, target, META_END);
    if m1 == m0 {
      OtherTargetKeeps(crc, m0, m, target);
    } else {
      assert ActiveSlot(crc, m0) == 0 || ActiveSlot(crc, m0) == 1;
    }
  }

  /** The boot loader, the gap between the slots and the parameters behind them are not for power cycles to write. */
  predicate Reserved(i: nat) { i < 0x1_D000 || 0x8_E000 <= i < 0x8_F000 || 0xF_D000 <= i }

  lemma CycleSparesReserved(crc: Checksum, m: Mem, m': Mem, i: nat)
    requires CycleEffect(crc, m, m') && i < FLASH_SIZE && Reserved(i)
    ensures m'[i] == m[i]
  {
    Partitions();
  }

  /** The images found at successive resets. */
  ghost predicate Run(crc: Checksum, images: seq<Mem>) {
    forall i :: 0 < i < |images| ==> CycleEffect(crc, images[i - 1], images[i])
  }

  lemma CycleKeepsBootable(crc: Checksum, m: Mem, m': Mem)
    requires CycleEffect(crc, m, m') && SomeSlotValid(crc, m)
    ensures SomeSlotValid(crc, m')
  {
    var target: Slot :| Spares(crc, m, target) && Confined(m, m', target, META_END);
    ConfinedKeepsOther(crc, m, m', target);
    EitherSlot(crc, m', target);
  }

  /** Bootable once, bootable at every later reset: the unforced decision starts a valid slot each time. */
  lemma {:induction false} BootableForever(crc: Checksum, images: seq<Mem>, i: nat)
    requires Run(crc, images) && i < |images| && SomeSlotValid(crc, images[0])
    ensures SomeSlotValid(crc, images[i])
    ensures var d := Decide(ControlOf(crc, images[i]), ValidityOf(crc, images[i]));
            d.StartApp? && SlotValid(crc, images[i], d.slot)
  {
    if i > 0 {
      BootableForever(crc, images, i - 1);
      CycleKeepsBootable(crc, images[i - 1], images[i]);
    }
    DecisionIsBootable(ControlOf(crc, images[i]), ValidityOf(crc, images[i]));
  }
}
