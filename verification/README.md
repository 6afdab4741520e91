# Verification model of the motor controller firmware

This project models the parts of the repository that carry the hardest claims and proves them in Dafny.
`dafny verify dfyconfig.toml` checks everything.

* **Firmware update and rollback** (`bytes`, `layout`, `image`, `nor`, `writer`, `controllog`, `bootmeta`, `boot`,
  `dfu`, `dfurun`, `reopen`, `bootsystem`, `trials`). NOR flash is bytes where programming is a bitwise AND and erasing
  sets ones. Power may fail at any moment: the flash keeps a ghost set of every image that a cut so far could have left,
  an unfinished operation leaving anything at all in the bytes it works on. On top sit the sector-buffered writer, the
  download session, the append-only control log, the boot decision, the manifest, whole DFU runs, and whole power cycles
  and runs of resets. The checksum is a parameter: every statement holds for every function from bytes to 32-bit words.
  Cyclic numbers are written out modulo 2^16 or 2^32.
* **Trapezoidal trajectories** (`ramp`, `ramptheory`), over the reals: limits, no overshoot, arrival in finitely many
  steps for all positive limits, and how fast the motion may still be when it snaps onto the target.
* **Parameter expressions** (`params`, `paramseval`): the memoising evaluator with its cycle-detecting stack, against
  the unique solution of the symbol equations.
* **Hand-off protocols** (`encoder`, `bulkring`, `spitrig`): the encoder's sequence lock, the bulk receive ring and the
  hardware-triggered SPI fetch. The other side (writer, interrupt, hardware) takes any number of steps between any two
  accesses.
* **Arithmetic with a meaning** (`motion`, `hrpwm`, `rms`, `pid`): vernier decoding and unwrapping, PWM phase shift,
  sliding mean squares and the two PID forms.

`options`, `intmath` and `realmath` hold what several of these share.

Objects whose methods update them are classes; each method's contract ties the new state to a function of the old one,
and the lemmas are about those functions.

## Where a promise and the code differ

* The metadata log promises that a power cut loses at most the record being written (`Interface/intf_boot.h:18`). A full
  log is erased before the next append, so a cut in between loses every record. `ControlLog.CutLosesAllExactlyWhenFull`
  shows that this happens exactly when the log is full. An erase torn by the cut can also bring back any record of the
  log, however old, and nothing but those (`ControlLog.TornEraseRevivesExactly`). Booting survives both
  (`BootSystem.BootableForever`).
* A save that succeeds is the next record loaded only if nothing newer sits behind the first blank record.
  `ControlLog.SaveIsDurable` gives the exact condition for every log, `ControlLog.TornEraseResurrects` for the logs an
  erase torn by a power cut may leave, `ControlLog.TornEraseWitness` one of 256 records where it fails.
* `boot_decide` ignores whether its save succeeded. Each start whose try goes uncounted adds one to the bound
  (`Trials.BoundedTrials`), and the bound is reached for any number of them (`Trials.TrialBoundIsExact`). Each time a
  torn erase brings an older record back adds at most the maximum (`Trials.TornEraseRevives`).
* `boot_confirm_running_slot` is documented for a pending slot (`Interface/intf_boot.h:178-184`); the code confirms any
  slot it is called for. `Boot.ConfirmEndsOtherUpdate` says exactly when that ends another slot's update.
* A DFU run that begins without a valid slot targets the active slot throughout. An OK manifest vouches for exactly the
  blocks the host sent (`DfuRuns.InstalledBlocks`), and the image stays, at every cut, until a block 0 with a header
  valid for the target reopens the download (`DfuRuns.InstalledStays`). After every block from then on
  `Reopening.ReopenedRunBoots` says exactly when the device still boots, in terms of the blocks sent and the flash they
  were sent over: until a sector is full as before, then only if another slot is valid or the new and old bytes mixed in
  the target have the new checksum. `Reopening.LoseOnlyImage` is a run of four blocks that loses the only image. With
  the other slot valid every cut is bootable (`DfuRuns.OtherSlotSurvives`). From one reset to the next bootability
  always holds (`BootSystem.BootableForever`).
* The reported acceleration can exceed its limit if the speed limit is below the snap threshold 1e-6;
  `RampTheory.ReportedAcceleration` names exactly the steps that do. The phase label of a step that stops the motion
  depends on the direction of travel (`RampTheory.StandstillLabel`).
* The SPI fetch claims that the next fetch brings a frame triggered after this one. After a time-out the unfinished old
  frame may still come; `SpiTrig.NextIsNewerExactlyWhenIdle` says exactly when the claim holds.
* A bus reset between a bulk read's load and store of the tail brings stale bytes back
  (`BulkRing.ResetInsideRead`, with the one tail value where it does not).
* A duty on the phase reference that the phase limits refuse has already been written there, and a frequency they refuse
  has already taken the phase off the target. `Hrpwm.RefusedDutyBreaksPhase` and `Hrpwm.RefusedFrequencyBreaksPhase` say
  exactly when the pairs still match, `Hrpwm.RefusedDutyWitness` shows a duty after which they do not. After a frequency
  change the phase keeps its count, not its angle.
* A centred duty that would begin at count 0 loses that count, and in a period of a single count it is high instead of
  low (`Hrpwm.DutyShare`).
* A rate-limited PID starts from output zero; its outputs are within the limits exactly if one rate step from there
  reaches the range (`Pid.OutputsWithinLimits`).

## Model

| member | source | states |
|---|---|---|
| Bytes.UnpackPack | scripts/gen_image_header.py:60-92 | Unpacking a packed record returns the fields, for every format and fields that fit |
| Bytes.PackUnpack | scripts/gen_image_header.py:95-140 | Packing what was unpacked returns the bytes |
| Layout.ParsePack | Interface/intf_boot.h:64-79 | A header printed and parsed is the same header, all nine fields at their widths |
| Layout.PackParse | Interface/intf_boot.h:64-79 | The 32 bytes a header checksum covers are the print of what they parse to |
| Layout.Partitions | Interface/intf_boot.h:45-56 | The partitions follow one another: image logs, control log, slot A, a gap, slot B, then the parameters |
| Image.BuildAccepts | scripts/gen_image_header.py:60-92 | An image is built exactly for slot 0 or 1, a zero placeholder of 64 bytes and a payload of 1 byte up to the slot size less 64 |
| Image.VerifyBuilt | scripts/gen_image_header.py:143-157 | Every built image verifies, for its own slot only, and yields its slot, version modulo 2^32, size, checksum and base |
| Image.BuildVerified | scripts/gen_image_header.py:60-157 | Every accepted image is the build of its own payload, slot and version, up to the 28 reserved bytes |
| Image.HostAgreesWithFirmware | App/Platform/Src/boot_meta.c:57-76 | The host's parser accepts exactly the bytes that the bootloader's header check, length and payload checksum accept |
| Nor.Flash.Erase | bootloader/src/flash.c:84-104 | Success exactly for an aligned sector inside the flash when the chip does not fail; then it is all ones; a cut or failure touches nothing outside it |
| Nor.Flash.Program | bootloader/src/flash.c:106-149 | Success exactly for data that is aligned, not empty and inside the flash when the chip does not fail; then every byte is the AND of old and new, the unaligned tail's 0xFF padding changing nothing; a cut or failure touches only whole words of the range |
| Nor.PaddingIsHarmless | bootloader/src/flash.c:130-149 | Programming a tail padded with 0xFF programs the tail alone |
| Nor.SplitProgram | bootloader/src/flash.c:106-149 | Whole words and then the tail program the same as all bytes at once |
| Nor.EraseThenProgram | bootloader/src/flash.c:162-175 | Programming a freshly erased sector stores the data exactly |
| Writer.CommitCompletes | bootloader/src/flash.c:162-175 | Committing the buffered sector completes the image in flash, also by the skip when flash already agrees, and touches no other sector |
| Writer.ChunkExtends | bootloader/src/flash.c:177-219 | A chunk right behind the image leaves the writer holding the longer image, across the end of a sector too |
| Writer.FinishCompletes | bootloader/src/flash.c:221-227 | After the last commit flash from the base is the image, and nothing past its last sector changed |
| Writer.HeldFlash | bootloader/src/flash.c:177-219 | Under an unfinished image flash has exactly its whole sectors, and everything else as it was |
| Writer.SectorWriter.Begin | bootloader/src/flash.c:155-160 | Any address is taken and nothing is buffered; at the base of a slot the writer holds the empty image |
| Writer.SectorWriter.Commit | bootloader/src/flash.c:162-175 | Succeeds exactly when the chip does not fail, and then flash is the committed state; flash that has the bytes already is not touched; it stays inside the slot wherever power fails |
| Writer.SectorWriter.WriteAt | bootloader/src/flash.c:177-219 | Succeeds exactly for data inside the slot when the chip does not fail; data that is empty or outside is refused with flash untouched; data that continues the image extends it, for any lengths and any sector crossings |
| Writer.SectorWriter.Finish | bootloader/src/flash.c:221-227 | Commits what is buffered and leaves the sector; succeeds exactly when the chip does not fail |
| Writer.SectorWriter.Abort | bootloader/src/flash.c:229-232 | What is buffered is dropped without touching flash |
| ControlLog.DecodeEncode | App/Platform/Src/boot_meta.c:210-218 | A legal record encoded is read back as that record |
| ControlLog.NewerIsAhead | App/Platform/Src/boot_meta.c:221-223 | A number is newer exactly if it is one of the next 2^15 - 1, around the wrap too |
| ControlLog.SaveIsDurable | App/Platform/Src/boot_meta.c:225-267 | For every log, the saved record is the one found newest next if and only if the log was full or no newer number follows in the unbroken run behind the first blank record |
| ControlLog.SaveThenLoad | App/Platform/Src/boot_meta.c:225-267 | On a log without records behind a blank one, a completed save is what the next load returns |
| ControlLog.AppendContiguous | App/Platform/Src/boot_meta.c:102-133 | Appending, complete or torn, leaves no record behind a blank one |
| ControlLog.CutSaveLoads | App/Platform/Src/boot_meta.c:102-133 | For every log, a save cut by power loss, its erase torn or not, leaves the old record, the new one, none only when the log was full, or another old record only if one was behind a blank record or the erase of a full log is torn |
| ControlLog.CutLosesAllExactlyWhenFull | Interface/intf_boot.h:18 | For every log with a record, some cut of a save loses every record if and only if the log is full, whether or not erases may tear |
| ControlLog.TornEraseRevivesExactly | Interface/intf_boot.h:18 | A save cut on a full log whose erase may tear can leave current exactly the new record or any record of the log, however old |
| ControlLog.TornEraseResurrects | App/Platform/Src/boot_meta.c:102-115 | For every log whose first record is blank nothing is loaded, and a save takes exactly if no record in the run behind it is newer than number 0 |
| ControlLog.TornEraseWitness | App/Platform/Src/boot_meta.c:102-115 | On a log of 256 records so torn a successful save is followed by the load of an old record |
| BootMeta.LogAppend | App/Platform/Src/boot_meta.c:117-133 | On a log sector success exactly when the chip does not fail; then the record is in the first erased place, or first in the erased sector; nothing outside the sector changes |
| BootMeta.AppendedCells | App/Platform/Src/boot_meta.c:117-133 | In bytes of flash, appending an encoded record is appending its cell to the log |
| BootMeta.ControlLoad | App/Platform/Src/boot_meta.c:225-253 | The scanning loop returns the record the log's specification loads |
| BootMeta.ControlSave | App/Platform/Src/boot_meta.c:255-267 | Succeeds exactly when the chip does not fail, and appends the record under the next number modulo 2^16 |
| BootMeta.ConfirmRunningSlot | App/Platform/Src/boot_meta.c:278-301 | Succeeds exactly for slot 0 or 1 when the chip does not fail; leaves flash alone if nothing is to do, else appends exactly the confirming record |
| BootMeta.ConfirmTakesEffect | Interface/intf_boot.h:178-184 | Whenever the confirming save takes, the slot is active, confirmed, nothing is pending, and a second confirmation writes nothing |
| Boot.SlotsUntouched | bootloader/src/boot.c:43-62 | Changes below the slots do not change which slots are valid |
| Boot.ClearPending | bootloader/src/boot.c:73-80 | Success appends the current record with nothing pending and no attempts |
| Boot.SavesApplied | bootloader/src/boot.c:114-157 | The log after all saves of a decision, case by case |
| Boot.BootDecide | bootloader/src/boot.c:114-157 | The decision is the preference order pending, active, other, DFU over the validity found; if its saves took effect the log holds exactly them; only the control sector may change |
| Boot.DecisionIsBootable | bootloader/src/boot.c:114-157 | An unforced decision starts an application exactly when some slot is valid, and then a valid one |
| Boot.WithoutRecord | App/Platform/Src/boot_meta.c:269-276 | Without a control record slot 0 is started if valid, else slot 1, else there is DFU |
| Boot.DecisionsMakeNothingPending | bootloader/src/boot.c:114-157 | No save of a decision makes a slot pending that was not, and a try is counted within the maximum |
| Boot.ConfirmEndsOtherUpdate | Interface/intf_boot.h:178-184 | A confirmation ends another slot's update exactly if one was pending there with attempts left, and the slot confirmed is then started if valid |
| Boot.MarkFlashing | bootloader/src/boot.c:82-88 | Succeeds exactly for a slot that exists when the chip does not fail, and appends the FLASHING record; neither slots nor the control log are touched |
| Boot.SlotCommit | bootloader/src/boot.c:90-109 | Succeeds exactly for a slot that exists when the chip does not fail, and appends the control record with the slot pending, no attempts, unconfirmed; the slots are untouched |
| Dfu.InstalledIsValid | bootloader/src/boot.c:43-62 | An image in place is a valid slot exactly when its header is valid for the slot and its payload checksum matches |
| Dfu.ConfinedKeepsOther | bootloader/src/dfu.c:85-134 | Wherever power fails in a session the other slot is as valid as before |
| Dfu.HeaderStays | bootloader/src/dfu.c:99-116 | The blocks that follow a valid header leave it valid |
| Dfu.Session.Open | bootloader/src/dfu.c:85-134 | A session opens only on block 0 with a full header valid for the target slot, starts from an empty image, and has changed nothing but the image metadata; otherwise flash is untouched |
| Dfu.Session.Accept | bootloader/src/dfu.c:119-134 | Ok exactly under the expected number, within the slot, not empty and with no flash failure, else the error of that case; then the block extends the image; a wrong number or length writes nothing |
| Dfu.Session.Download | bootloader/src/dfu.c:85-134 | The answer to every block, Ok exactly if it opens or continues a session as it should and the flash does not fail; success means the image is the blocks of this session in order, over the flash it began with; a refused block, a wrong file in particular, leaves flash untouched; failure ends the session |
| Dfu.Session.VerifySlot | bootloader/src/dfu.c:136-161 | Ok exactly for a session of the right length and checksum when the flash does not fail, else the error of that case; then the slot holds the session's bytes and is valid |
| Dfu.Session.Manifest | bootloader/src/dfu.c:136-173 | The answer in every case, Ok exactly for a complete image when the flash does not fail; then the slot holds exactly the session's blocks, is valid, and is made pending; whatever the answer, and wherever power fails, either the control log is unchanged or the slot is already valid; without a session flash is untouched |
| Dfu.Session.Abort | bootloader/src/dfu.c:59-62 | The session ends and flash is untouched |
| BootSystem.TargetIsNeverTheOnlyValid | bootloader/src/main.c:43-50 | A download goes to the active slot exactly if that is not valid; some slot outside the target is valid exactly when any slot is |
| BootSystem.EnterDfu | bootloader/src/main.c:39-50 | If the slot that the control record names active is valid at entry, flash and every image a cut may leave keep it valid, byte for byte; if it is not, it is the target |
| BootSystem.SetActiveSlot | App/Platform/Src/app_boot.c:163-183 | Succeeds exactly for slot 0 or 1 when the chip does not fail, and appends the current record with the slot active, nothing pending, unconfirmed |
| DfuRuns.DfuRun | bootloader/src/dfu.c:206-236 | Whatever the host sends only the target slot and the metadata change, at every cut; the trace of answers, flash and open session obeys the rules of one request |
| DfuRuns.Serve | bootloader/src/dfu.c:85-181 | One request: its answer in every case; a session grows by the expected blocks only, with its whole sectors in flash; an OK manifest installs exactly its bytes; only the manifest of an open session changes the control log; an idle device is changed only by a block 0 with a header valid for the target |
| DfuRuns.SessionBlocks | bootloader/src/dfu.c:85-134 | Over any run a session is open exactly after blocks 0, 1, 2, .. all answered Ok, and holds exactly their bytes |
| DfuRuns.InstalledBlocks | bootloader/src/dfu.c:136-173 | For every OK manifest of a run, the slot holds exactly the concatenation of the accepted blocks of one session just before it, and is valid and pending |
| DfuRuns.DownloadSucceeds | bootloader/src/dfu.c:85-173 | In any run, while the flash does not fail, blocks 0, 1, 2, .. of an image with a valid header, the right length and the right checksum are all answered Ok, and so is the manifest behind them |
| DfuRuns.UpdateSucceeds | bootloader/src/dfu.c:85-173 | ... and until a download is reopened the slot holds that image, and a reset starts it if the control log takes a save |
| DfuRuns.IdleStays | bootloader/src/dfu.c:92-116 | Without a session, whatever the host sends short of a block 0 with a header valid for the target, flash and the images a cut may leave do not change |
| DfuRuns.InstalledStays | bootloader/src/dfu.c:92-116 | Until a download is reopened an installed image stays: flash and the images a cut may leave do not change, and the target is valid |
| DfuRuns.LogChangesOnlyByManifest | bootloader/src/dfu.c:136-173 | Over a run without the manifest of an open session the control log stays as it was, in flash and in every image a cut may leave: nothing else makes a slot pending |
| DfuRuns.LogNeverAhead | bootloader/src/dfu.c:136-173 | From the request that opens a download until it is opened again, wherever power fails the control log is as it was or the target is already valid |
| DfuRuns.OtherSlotSurvives | bootloader/src/main.c:43-50 | With the other slot valid at the start, every image a cut of the run may leave has a valid slot |
| Reopening.ReopenedDownloadBoots | bootloader/src/dfu.c:92-134 | For every state of the writer and image of any length: some slot is valid exactly if the other one was, or the target was and no sector is full yet, or the mixed payload has the new checksum |
| Reopening.ReopenedRunBoots | bootloader/src/dfu.c:92-134 | After any block of any session of any run the device still boots exactly if it would with the blocks sent laid over the flash found when the session began |
| Reopening.ReopenedDownloadLosesAll | bootloader/src/dfu.c:92-134 | A run that sends a damaged sector in four blocks over the only image keeps the device bootable up to the third and loses it with the fourth |
| Reopening.WriterLosesAll | bootloader/src/flash.c:177-219 | The same of the writer's states when no flash operation fails |
| Reopening.ReopenedDownloadCanLoseAll | bootloader/src/dfu.c:92-134 | There are a device and a sector for which that happens |
| Reopening.LoseOnlyImage | bootloader/src/dfu.c:206-236 | Such a run, on a device with one intact image: no slot is valid any more once the four blocks are answered Ok |
| BootSystem.PowerCycle | bootloader/src/main.c:23-53 | Every image a cut during a power cycle may leave, and the one at its end, spares a valid slot, if there was one, and the active slot, byte for byte, if it was valid; an unforced decision is the preference order |
| BootSystem.CycleSparesReserved | Interface/intf_boot.h:7-16 | A power cycle cut anywhere writes neither the boot loader nor the gap between the slots nor the parameters |
| BootSystem.CycleKeepsBootable | bootloader/src/main.c:43-50 | A power cycle cut anywhere keeps some slot valid |
| BootSystem.BootableForever | bootloader/src/boot.c:114-157 | Over every run of power cycles, once some slot is valid every later unforced decision starts a valid slot |
| DfuRuns.ManifestThenBoot | bootloader/src/dfu.c:136-173 | From an OK manifest whose save takes, until a download is reopened, a reset at any moment starts the target, which holds exactly the accepted blocks of one session |
| Trials.SavedSound | App/Platform/Src/boot_meta.c:255-267 | A completed save keeps the log in order and becomes current |
| Trials.DecisionSettles | bootloader/src/boot.c:114-157 | A decision whose saves are made counts a trial and changes nothing else, or leaves nothing pending and the started slot active, confirmed only if it was; then the next decision is the same again |
| Trials.StepEffect | bootloader/src/boot.c:114-157 | A reset whose erases are not torn, with its saves completed, lost or cut, clears pending or keeps it with the try counted, unless it started the slot uncounted, which takes a lost save |
| Trials.TriesLeft | bootloader/src/boot.c:114-140 | Any run of resets over any logs starts the pending slot at most as often as attempts are left, plus starts that went uncounted, plus the maximum for each time that tries came back |
| Trials.NoTornErase | bootloader/src/boot.c:114-140 | From a log in order tries come back only if some erase is torn |
| Trials.BoundedTrials | bootloader/src/boot.c:104-140 | After a commit the slot is started as pending at most the maximum number of times plus the uncounted starts, for every schedule of power cuts and lost saves; torn erases add at most the maximum for each time that tries come back |
| Trials.TornEraseRevives | App/Platform/Src/boot_meta.c:102-115 | On a full log, with the tries used up, a torn erase can make any record of the log current again, with all the tries it had |
| Trials.NoLostSaves | bootloader/src/boot.c:104-140 | Without lost saves and torn erases no start goes uncounted |
| Trials.TrialBoundIsExact | bootloader/src/boot.c:131 | With no erase torn, runs with at most n uncounted starts keep to the maximum exactly if n is 0 |
| Trials.LoseTries | bootloader/src/boot.c:131 | For every n some run makes n starts more than there are attempts left, n of them uncounted |
| Trials.FallbackAfterTrials | bootloader/src/boot.c:114-157 | On a log in order, with the tries used up, the next decision clears pending and starts the active slot if it is valid |
| Trials.FailedSavesNeverGiveUp | bootloader/src/boot.c:131 | With saves that leave the log alone, a run of any number of resets starts the pending slot each time |
| Ramp.TrapezoidRamp.Step | App/Algorithm/Src/algo_ramp.c:253-341 | The method's new state is one step of the generator |
| RampTheory.BrakesExactly | App/Algorithm/Src/algo_ramp.c:283-310 | A motion towards the target within the limit gains one quantum up to the limit as long as v^2 < 2 a d, and loses one, at most to zero, from then on |
| RampTheory.StartsAndSlows | App/Algorithm/Src/algo_ramp.c:283-310 | From a near standstill a step goes for the target; going away or above the limit it slows down by one quantum, at most to zero |
| RampTheory.ArrivesExactly | App/Algorithm/Src/algo_ramp.c:253-325 | A step arrives exactly if it starts near the target and near rest, or would reach or cross the target |
| Ramp.TrapezoidRamp.Plan | App/Algorithm/Src/algo_ramp.c:442-469 | Any target, position and signed velocity start a motion under the same limits |
| Ramp.TrapezoidRamp.SetLimits | App/Algorithm/Src/algo_ramp.c:478-494 | Only positive limits are taken, and the motion goes on from where it is |
| RampTheory.VelocityRule | App/Algorithm/Src/algo_ramp.c:283-310 | The next velocity without products: braking takes one quantum off, at most to zero; else one quantum towards the target up to the limit |
| RampTheory.SpeedBound | App/Algorithm/Src/algo_ramp.c:302-310 | A step's speed is within the limit, or falls if it was above |
| RampTheory.SpeedBoundRun | App/Algorithm/Src/algo_ramp.c:253-341 | Over a whole run the speed never exceeds the larger of the limit and the initial speed |
| RampTheory.ReportedAcceleration | App/Algorithm/Src/algo_ramp.c:327-331 | The reported acceleration is the velocity change over the step time, and within the limit exactly unless the step starts from below the threshold faster than the speed limit and a quantum; always if the speed limit is no smaller than the threshold |
| RampTheory.NoOvershoot | App/Algorithm/Src/algo_ramp.c:312-322 | A motion not going away from the target never passes it and never recedes |
| RampTheory.NoOvershootRun | App/Algorithm/Src/algo_ramp.c:253-341 | The same for runs of any length |
| RampTheory.StepDecreases | App/Algorithm/Src/algo_ramp.c:253-341 | Every step that does not arrive lowers the triple moving away, whole progress quanta left, braking quanta left |
| RampTheory.StepsToDone | App/Algorithm/Src/algo_ramp.c:253-341 | The number of steps to arrival exists for every position, velocity and positive limits |
| RampTheory.Arrives | App/Algorithm/Src/algo_ramp.c:253-341 | From then on the motion is done, on target and at rest |
| RampTheory.ArrivesNoSooner | App/Algorithm/Src/algo_ramp.c:253-341 | Before that number of steps it is not done |
| RampTheory.StepEnergy | App/Algorithm/Src/algo_ramp.c:283-310 | Square of the next speed plus twice quantum times speed is bounded by what the distance left absorbs plus a fixed slack |
| RampTheory.ArrivingKept | App/Algorithm/Src/algo_ramp.c:253-341 | v^2 <= 2 a d + 4 a dt vmax survives every step that does not arrive |
| RampTheory.SnapSpeed | App/Algorithm/Src/algo_ramp.c:312-322 | The speed a snap discards satisfies v^2 <= 6 a dt vmax, and the speed it would have had w^2 <= 4 a dt vmax |
| RampTheory.AwayEnds | App/Algorithm/Src/algo_ramp.c:283-310 | A motion that stops going away from the target does so slower than one quantum, whatever its speed was |
| RampTheory.ArrivalSpeed | App/Algorithm/Src/algo_ramp.c:253-341 | Over a run from rest, from any motion slow enough for its distance, or replanned while going away at any speed, every arrival is that soft |
| RampTheory.PhaseTells | App/Algorithm/Src/algo_ramp.c:333-339 | The phase is CRUISE exactly if the velocity stays, else ACCEL or DECEL as the step ends faster or slower in its direction |
| RampTheory.StandstillLabel | App/Algorithm/Src/algo_ramp.c:333-339 | Braking to a standstill is labelled ACCEL when moving up and DECEL when moving down |
| Params.BuildLeaves | scripts/gen_params.py:505-518 | The leaf table lists, for every name, exactly the paths that end in it, in order |
| Params.BareNameMeansTheOnlyLeaf | scripts/gen_params.py:566-581 | In a table built from the paths, a bare name that is no domain and no path resolves to a symbol exactly if that is the only one of its domain with the leaf |
| Params.QualifiedNameMeans | scripts/gen_params.py:566-573 | A dotted name that begins with a domain means the rest of it in that domain's file, wherever it is used, and is undefined if that lists no such path |
| Params.LocalNameMeans | scripts/gen_params.py:574-581 | Any other name means a path of its own file before any leaf; a bare name else the only path ending in it, is ambiguous between exactly those that do, and everything else is undefined |
| Params.OperatorMeans | scripts/gen_params.py:595-603 | An operator applies Python's to both values in their order, the left error first; an integer exponent beyond 1000 either way is refused |
| Params.CallMeans | scripts/gen_params.py:609-613 | A call applies one of the seven functions, and no other, to the values of the arguments in their order |
| Params.CoerceFits | scripts/gen_params.py:521-545 | Coercion yields only values of the C type within the bounds, leaves those alone, and moves none by more than 1e-9 |
| Params.RealCoercion | scripts/gen_params.py:521-535 | A real parameter takes any finite number within its bounds, both included, and nothing else |
| Params.WholeCoercion | scripts/gen_params.py:536-545 | A whole parameter takes the whole number within 1e-9 of the value, if that is within its type and its bounds; each other value gets the error of its case |
| Params.MeaningDependsOnRefs | scripts/gen_params.py:584-614 | The value of an expression depends only on the symbols it refers to |
| Params.MeaningExtends | scripts/gen_params.py:584-614 | Values for more symbols change no result that was settled, error or value |
| Params.MeaningNeedsRefs | scripts/gen_params.py:584-614 | An expression with a value has a value for every reference in it |
| ParamsEval.AcyclicUnique | scripts/gen_params.py:617-642 | Without cycles there is at most one solution, so the order of evaluation cannot change the values |
| ParamsEval.SolutionFits | scripts/gen_params.py:617-642 | In a solution every computed parameter has its C type and is within its bounds |
| ParamsEval.SettledAgrees | scripts/gen_params.py:617-642 | Every solution agrees with the memo, at any time during evaluation |
| ParamsEval.OrderedIsAcyclic | scripts/gen_params.py:617-642 | Symbols settled in dependency order admit no cycle |
| ParamsEval.ClosesCycle | scripts/gen_params.py:623-626 | The chain reported from the stack is a cycle of the dependency graph |
| ParamsEval.FailureIsFinal | scripts/gen_params.py:617-642 | A definition that fails once its references are settled leaves no solution |
| ParamsEval.Evaluator.EvalSymbol | scripts/gen_params.py:617-642 | Terminates on every table; the value is memoised and meets its definition; an error names a genuine cycle or leaves no solution; the stack is restored |
| ParamsEval.Evaluator.EvalNode | scripts/gen_params.py:584-614 | The result is the meaning of the expression under the memo, or a blamed failure below |
| ParamsEval.Evaluator.EvalAll | scripts/gen_params.py:910-913 | All symbols evaluate exactly when the table is acyclic and has a solution, and the memo is then that solution |
| Encoder.DeltaIsCircular | App/Algorithm/Src/algo_encoder_snapshot.c:92-104 | The wrapped difference is the distance on the 16-bit circle and congruent to the change |
| Encoder.JudgeGood | App/Algorithm/Src/algo_encoder_snapshot.c:68-133 | Each published sample is an accepted reading with its time and number, valid only below the failure limit |
| Encoder.SmoothExtends | App/Algorithm/Src/algo_encoder_snapshot.c:92-104 | Accepted readings stay within the jump limit of their predecessors on the circle |
| Encoder.RunKeeps | App/Algorithm/Src/algo_encoder_snapshot.c:33-40 | All of this holds in every reachable state, a write in progress included |
| Encoder.SeqlockRead | App/Algorithm/Src/algo_encoder_snapshot.c:136-160 | Fields loaded at any moments, in any order, between two equal even generations, with fewer than 2^31 publications, are the one sample published last |
| Encoder.NewMeansAccepted | App/Algorithm/Src/algo_encoder_snapshot.c:167-172 | The sequence number differs exactly when another input was accepted, short of 2^32 of them |
| Encoder.ValidExactly | App/Algorithm/Src/algo_encoder_snapshot.c:68-133 | Over any run the sample is valid exactly if an input was accepted and since then no read failed and fewer than the limit were rejected; the counter counts both kinds |
| Encoder.JumpsExactly | App/Algorithm/Src/algo_encoder_snapshot.c:92-104 | A reading is a jump exactly if it is further on the circle from the last accepted one than the limit, if there is one |
| Encoder.DiagnosisExactly | App/Algorithm/Src/algo_encoder_snapshot.c:68-133 | Over any run the sample has the reading and time of the last input accepted and counts the accepted ones modulo 2^32; its flags and its source reading are those of the last input |
| Encoder.EncoderSnapshot.Publish | App/Algorithm/Src/algo_encoder_snapshot.c:33-40 | Odd generation, field by field, even generation: one publication of the judged sample |
| Encoder.EncoderSnapshot.FailedRead | App/Algorithm/Src/algo_encoder_snapshot.c:78-89 | A failed read publishes at once an invalid sample that keeps reading, number and time |
| Encoder.EncoderSnapshot.Jumped | App/Algorithm/Src/algo_encoder_snapshot.c:105-118 | A jump keeps the old reading, counts the failure and invalidates at the limit |
| Encoder.EncoderSnapshot.Push | App/Algorithm/Src/algo_encoder_snapshot.c:68-133 | The new state is the judged publication, the result and the counters follow the branch |
| Encoder.EncoderSnapshot.Read | App/Algorithm/Src/algo_encoder_snapshot.c:136-165 | True means one whole publication, its reading accepted, failures below the limit, age modulo 2^32, with the writer interrupting anywhere; an attempt the writer leaves alone answers the sample's own validity; no retries means false |
| BulkRing.PushAppends | Driver/hpm_impl/drv_usb_cdc.c:484-492 | The copy in two pieces appends to the queue and disturbs nothing in it |
| BulkRing.PopTakesOldest | Driver/hpm_impl/drv_usb_cdc.c:809-813 | Moving the tail drops the oldest byte and nothing else |
| BulkRing.PushConserves | Driver/hpm_impl/drv_usb_cdc.c:468-493 | A push keeps: taken = read followed by queued, offered = read + queued + dropped, drop counter modulo 2^32 |
| BulkRing.PopConserves | Driver/hpm_impl/drv_usb_cdc.c:809-813 | A pop keeps the same |
| BulkRing.ResetInsideRead | Driver/hpm_impl/drv_usb_cdc.c:399-407 | After a bus reset inside a read the queue is exactly the stale bytes behind the loaded tail, empty only for the last index |
| BulkRing.BulkChannel.Push | Driver/hpm_impl/drv_usb_cdc.c:468-493 | Takes the bytes that fit in 1023, in order, counts the rest as dropped |
| BulkRing.BulkChannel.BulkOut | Driver/hpm_impl/drv_usb_cdc.c:501-512 | Oversize transfers are counted and not taken; others are pushed |
| BulkRing.BulkChannel.ReadOne | Driver/hpm_impl/drv_usb_cdc.c:810-811 | With pushes between the load of the byte and the store of the tail, the oldest byte comes out |
| BulkRing.BulkChannel.Read | Driver/hpm_impl/drv_usb_cdc.c:802-815 | Interrupted anywhere, it delivers the next bytes in order and at least those waiting at the start; length 0 gives -1 |
| SpiTrig.EnoughForDepthTriggers | Driver/hpm_impl/drv_spi.c:398-404 | From a topped-up state no trigger starves as long as they number at most the depth |
| SpiTrig.OneTooMany | Driver/hpm_impl/drv_spi.c:398-404 | One more than the words in the FIFO does starve: the bound is exact |
| SpiTrig.NextIsNewerExactlyWhenIdle | Driver/hpm_impl/drv_spi.c:438-446 | The next fetch is sure to bring a frame triggered later exactly if this one saw the bus idle |
| SpiTrig.SpiBus.Arm | Driver/hpm_impl/drv_spi.c:372-436 | Waits with a bound for the bus, refuses one still busy, else empties both FIFOs and fills the transmit FIFO to its depth; arming twice changes nothing |
| SpiTrig.SpiBus.Drain | Driver/hpm_impl/drv_spi.c:482-489 | Takes the counted words out and returns the last of them, frames arriving meanwhile kept |
| SpiTrig.SpiBus.TopUp | Driver/hpm_impl/drv_spi.c:494-500 | The transmit FIFO is never overfilled and covers the depth again, triggers during the top-up counted |
| SpiTrig.SpiBus.Receive | Driver/hpm_impl/drv_spi.c:460-492 | New data, nothing or a time-out is what the last status read shows; everything received by then is drained, stale and late frames counted |
| SpiTrig.SpiBus.Fetch | Driver/hpm_impl/drv_spi.c:447-502 | Returns the newest frame completed since the last drain, each newer than any handed out before, with hardware running in between; no late trigger within the depth; new exactly if the bus was idle and a frame came; stale frames and time-outs counted |
| Motion.DecodeMeaning | App/Algorithm/Src/algo_motion.c:12-44 | For any vernier error, the turn decoded is the nearest to n - R e modulo R, refused exactly when more than a quarter off |
| Motion.VernierRoundTrip | App/Algorithm/Src/algo_motion.c:12-44 | For R e within a quarter the very turn comes back, the last turn and turn 0 included, with its residual |
| Motion.VernierRefusal | App/Algorithm/Src/algo_motion.c:29-34 | For R e below three quarters the decoder refuses exactly when it exceeds one quarter |
| Motion.RefusesExactly | App/Algorithm/Src/algo_motion.c:12-44 | Readings outside a turn and gears that cannot be are refused, and of the others exactly those with a residual over a quarter |
| Motion.WrapIsRepresentative | App/Algorithm/FOC/Inc/foc_math.h:89-126 | Wrapping gives a representative in (-pi, pi] |
| Motion.WrapUnique | App/Algorithm/FOC/Inc/foc_math.h:89-126 | ... and it is the only one |
| Motion.Accumulator.Step | App/Algorithm/Src/algo_motion.c:46-79 | Rebase, jump or accumulation, with the return code and the rebase flag |
| Motion.StepTracks | App/Algorithm/Src/algo_motion.c:65-78 | A true movement within half a turn is followed exactly, or refused exactly when it reaches the threshold |
| Motion.UnwrapTracks | App/Algorithm/Src/algo_motion.c:46-79 | Over any run of small movements continuous minus true angle is constant |
| Motion.UnwrapCongruent | App/Algorithm/Src/algo_motion.c:46-79 | Over all runs, jumps and rebases included, a valid accumulator is the last raw angle plus whole turns |
| Hrpwm.CmpShape | Driver/hpm_impl/drv_hrpwm.c:296-396 | Compare values are an ordered window within the period, or lie past it |
| Hrpwm.CompareFits | Driver/hpm_impl/drv_hrpwm.c:413-427 | Every compare value fits the 24-bit register and its 4-bit extension |
| Hrpwm.DutyShare | Driver/hpm_impl/drv_hrpwm.c:285-396 | For every duty, period and alignment: 0 is high at no count and 1 at every count; in between exactly the whole counts in reload times duty are high, centred or ending with the period, a centred window that would begin at 0 losing one |
| Hrpwm.SameWindowExactly | Driver/hpm_impl/drv_hrpwm.c:296-396 | Two compare pairs make the same output at every count exactly if they are equal or neither is ever high |
| Hrpwm.RotatedWindow | Driver/hpm_impl/drv_hrpwm.c:615-640 | The rotated window, swapped and inverted when it wraps, equals the reference window shifted, at every count, for 0% and 100% too |
| Hrpwm.RotationIsInPhase | Driver/hpm_impl/drv_hrpwm.c:569-641 | Plain waveforms with the rotated target are in phase on both sides of the pair |
| Hrpwm.TargetShare | Driver/hpm_impl/drv_hrpwm.c:569-641 | In phase the target is high at as many counts as the reference |
| Hrpwm.PhaseCountExact | Driver/hpm_impl/drv_hrpwm.c:1440-1445 | The phase count is the whole counts in the angle's share of the period, short of a full period |
| Hrpwm.RefusedDutyBreaksPhase | Driver/hpm_impl/drv_hrpwm.c:836-870 | A duty keeps the pairs in phase exactly unless it goes to the reference, the limits refuse it, and its compare pair differs from the old one with one of them ever high |
| Hrpwm.RefusedDutyWitness | Driver/hpm_impl/drv_hrpwm.c:836-870 | Under a limit of one half a duty of three quarters is refused and the pairs are out of phase |
| Hrpwm.RefusedFrequencyBreaksPhase | Driver/hpm_impl/drv_hrpwm.c:681-736 | A frequency keeps the pairs in phase exactly unless the limits refuse the phase and the target's plain registers differ from the rotated ones with one of them ever high |
| Hrpwm.Instance.ApplyPhase | Driver/hpm_impl/drv_hrpwm.c:569-641 | Succeeds exactly within the limits and then rotates the target, nothing else |
| Hrpwm.Instance.ConfigPhaseLimit | Driver/hpm_impl/drv_hrpwm.c:1489-1508 | Limits in range are taken, and what runs stays as it is |
| Hrpwm.Instance.SetDuty | Driver/hpm_impl/drv_hrpwm.c:836-870 | Refused on the target; exactly when it succeeds, and the whole new state, also when the limits refuse it after it is written; every configured pair but the target runs at its duty; a success keeps or restores the phase |
| Hrpwm.Instance.SetFrequency | Driver/hpm_impl/drv_hrpwm.c:681-736 | Exactly when it succeeds, and the whole new state, also when the limits refuse the phase: new period, plain target, phase still active; every configured pair but the target runs at its duty; a success restores the phase |
| Hrpwm.Instance.SetPhase | Driver/hpm_impl/drv_hrpwm.c:1411-1482 | A success establishes the invariant for the new pairs with the count of the angle, the former target's waveform restored; failure changes nothing |
| Rms.DeviationExpands | App/Algorithm/Src/algo_rms.c:39-55 | The sum of squared distances in terms of the two running sums |
| Rms.AroundTheMean | App/Algorithm/Src/algo_rms.c:46-52 | The running-sum AC mean square equals the direct one around the mean and is never negative |
| Rms.SumsBound | App/Algorithm/Src/algo_rms.c:46-52 | Cauchy and Schwarz for the two sums of a window |
| Rms.AdvanceTracks | App/Algorithm/Src/algo_rms.c:136-176 | After any sample the ring holds the last samples and both sums are theirs |
| Rms.BufferSums | App/Algorithm/Src/algo_rms.c:104-125 | The buffer in storage order has the sums of the window |
| Rms.RmsWindow.MeanSq | App/Algorithm/Src/algo_rms.c:39-55 | The result is the mean square computed from the window itself, with or without the mean removed |
| Rms.RmsWindow.Update | App/Algorithm/Src/algo_rms.c:136-176 | The same after each sample, for any history |
| Rms.RmsWindow.Rebuild | App/Algorithm/Src/algo_rms.c:104-125 | Rebuilding the sums changes nothing |
| Pid.Controller.StepPositional | App/Algorithm/Src/algo_pid.c:162-198 | The new state is the positional step, limits, anti-windup and filter included |
| Pid.Controller.StepIncremental | App/Algorithm/Src/algo_pid.c:210-246 | The new state is the incremental step |
| Pid.Controller.PrimeWith | App/Algorithm/Src/algo_pid.c:138-150 | The first input becomes the history, later ones change nothing |
| Pid.RunLinked | App/Algorithm/Src/algo_pid.c:162-246 | Along an unlimited run the incremental output is integral plus derivative plus the proportional rise since the first error |
| Pid.PositionalLaw | App/Algorithm/Src/algo_pid.c:162-198 | While nothing limits it the positional output is, from the inputs alone, gain times weighted error plus gain times the sum of all errors plus the derivative, filtered or not |
| Pid.RunSeen | App/Algorithm/Src/algo_pid.c:52-92 | Over every run of either form, limited or not, the derivative term is that of all inputs so far, the first giving none |
| Pid.FormsAgree | App/Algorithm/Src/algo_pid.c:162-246 | On unlimited runs of any length the forms differ by kp times the first error, plus the setpoint held back by a weight below one; filter or not |
| Pid.OutputsWithinLimits | App/Algorithm/Src/algo_pid.c:162-246 | Every output of every run of both forms is within the limits exactly if the rate is not limited or one rate step from zero reaches the range |
| Pid.OutputsExactly | App/Algorithm/Src/algo_pid.c:99-127 | Both forms put out what they computed, brought within the limits, as far as the rate allows |
| Pid.IntegralWithinLimits | App/Algorithm/Src/algo_pid.c:99-108 | The integral of every run is within its limits, under every anti-windup |
| Pid.RateBounded | App/Algorithm/Src/algo_pid.c:116-127 | No output of either form is further than one rate step from the last |
| Pid.AntiWindupPullsBack | App/Algorithm/Src/algo_pid.c:99-108 | With the integral left behind, the raw output would have been the limit, or short of it by the part back-calculation leaves |
| Pid.FirstOutputOutside | App/Algorithm/Src/algo_pid.c:116-127 | Out of reach, the first output is outside whatever the input |

## Left out

- Floating point rounding, NaN and overflow: floats are reals, and the finite-value checks have no counterpart; the wrap of an angle is the exact floor.
- ParamsEval.Evaluator.EvalNode: Python's arithmetic and functions are parameters that may raise; conversion of huge integers to float neither rounds nor overflows.
- YAML loading, schema validation, cross checks and the emission of C text and reports; keyword arguments of calls, which the evaluator ignores.
- ControlLog.CutSaveLoads: takes torn records, in an append or an erase, as detected by their checksum; so does Trials.BoundedTrials. The byte-level results (bootability, manifest) assume nothing of the kind.
- Writer.SectorWriter.WriteAt: only for a writer begun at an aligned base with room for a slot, because the bootloader begins it at slot bases alone.
- CRC arithmetic: the checksum is a parameter.
- USB transport, descriptors, reset and idle timers, the CDC byte ring, the bulk transmit side, caches, interrupt masking, the boot mailbox and the jump to the application.
- DfuRuns.DfuRun: the delayed reset after a manifest is an event of the host's sequence, not a timer; upload and detach requests change nothing and are not events.
- NULL arguments and uninitialised objects.
- Other ramp modes, hysteresis, feedforward, friction, speed and position loops, moving averages and their cached reciprocals.
- Encoder.EncoderSnapshot.Read: compiler and memory reordering beyond loads and stores of fields in any order; freshness by age is a plain comparison.
- BulkRing.BulkChannel.Read: a bus reset inside a read is excluded here and treated in BulkRing.ResetInsideRead.
- SpiTrig.SpiBus.AwaitIdle: the clock; the bounded wait is any number of status reads. The receive FIFO has no upper limit, a trigger during a transfer is ignored, and the DMA set-up cannot fail.
- Hrpwm.Instance.SetDuty: direct duty updates, jitter and pair initialisation rewrite a target without its phase; starting, stopping, dead time, forced outputs, faults and trigger compares are not modelled.
- Pid.Controller.StepIncremental: the second previous samples, which are stored and never read; gain changes at run time.
- The square root of the mean square.
