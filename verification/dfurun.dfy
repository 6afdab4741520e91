/** A whole DFU run (bootloader/src/dfu.c): what was downloaded, what an OK manifest installs, and what it is worth. */
module DfuRuns {
  import opened Bytes
  import opened Layout
  import opened Options
  import opened Nor
  import opened Writer
  import opened ControlLog
  import opened BootMeta
  import opened Boot
  import opened Dfu

  /** What the host sends while the device is in DFU. */
  datatype UsbEvent = DnLoad(blockNum: u16, data: Block) | ZeroLength | DfuAbort

  /** The flash, the images a cut so far could have left, its failures, and the session, if one is open. */
  datatype Moment = Moment(mem: Mem, cuts: iset<Mem>, failures: nat, session: Option<Progress>)

  ghost function Now(session: Session): Moment
    reads session, session.flash
  {
    Moment(session.flash.mem, session.flash.exposed, session.flash.failures, session.Current())
  }

  /** A block 0 that is accepted as the start of another download. */
  predicate Reopens(crc: Checksum, target: Slot, e: UsbEvent) {
    e.DnLoad? && Opens(crc, target, e.blockNum, e.data)
  }

  /** A session grows by the blocks expected, starts over with a block 0, and ends with anything else. */
  ghost predicate Advances(crc: Checksum, target: Slot, e: UsbEvent, status: Status, was: Moment, now: Moment) {
    if !e.DnLoad? || status != Ok then now.session.None?
    else if was.session.Some? && e.blockNum != 0 then
      && e.blockNum == was.session.value.next
      && now.session == Some(Progress(was.session.value.image + e.data, e.blockNum + 1, was.session.value.start))
    else
      && Reopens(crc, target, e) && now.session.Some?
      && now.session.value == Progress(e.data, 1, now.session.value.start)
      && OnlyWithin(was.mem, now.session.value.start, META_A, CONTROL)
  }

  /** The slot under an unfinished image has the whole sectors of it, and what was there before in the others. */
  ghost predicate Underway(crc: Checksum, target: Slot, p: Progress, m: Mem) {
    && HEADER_SIZE <= |p.image| <= SLOT_SIZE && HeaderValid(crc, p.image, target)
    && m == Write(p.start, SlotOffset(target), p.image[..SectorOf(|p.image|)])
  }

  ghost predicate SameLog(crc: Checksum, m: Mem, m': Mem) { Cells(crc, m') == Cells(crc, m) }

  /** The control log is as it was, in flash and in every image a cut may leave. */
  ghost predicate LogKept(crc: Checksum, was: Moment, now: Moment) {
    SameLog(crc, was.mem, now.mem) && forall m :: m in now.cuts ==> m in was.cuts || SameLog(crc, was.mem, m)
  }

  /** Wherever the control log is no longer as it was, the target is already valid. */
  ghost predicate LogFollowsSlot(crc: Checksum, target: Slot, was: Moment, now: Moment) {
    && (SameLog(crc, was.mem, now.mem) || SlotValid(crc, now.mem, target))
    && forall m :: m in now.cuts ==> m in was.cuts || SameLog(crc, was.mem, m) || SlotValid(crc, m, target)
  }

  predicate Manifests(e: UsbEvent, was: Moment) { e.ZeroLength? && was.session.Some? }

  /** What a request is answered. */
  function Answer(crc: Checksum, target: Slot, e: UsbEvent, open: Option<Progress>, failed: bool): Status {
    match e
    case DnLoad(blockNum, data) => BlockAnswer(crc, target, open, blockNum, data, failed)
    case ZeroLength => ManifestAnswer(crc, open, failed)
    case DfuAbort => Ok
  }

  /** One request served. */
  ghost predicate Served(crc: Checksum, target: Slot, e: UsbEvent, status: Status, was: Moment, now: Moment) {
    && was.failures <= now.failures && status == Answer(crc, target, e, was.session, was.failures != now.failures)
    && Advances(crc, target, e, status, was, now)
    && (now.session.Some? ==> Underway(crc, target, now.session.value, now.mem))
    && (was.session.None? && !Reopens(crc, target, e) ==> now == was)
    && (e.DfuAbort? ==> now == was.(session := None))
    && (if Manifests(e, was) then LogFollowsSlot(crc, target, was, now) else LogKept(crc, was, now))
    && (e.ZeroLength? && status == Ok ==>
          was.session.Some? && Installed(crc, target, was.session.value.image, was.mem, now.mem))
  }

  ghost predicate ServedAt(crc: Checksum, target: Slot, events: seq<UsbEvent>, statuses: seq<Status>,
                           trace: seq<Moment>, i: nat)
    requires i < |events| == |statuses| && |trace| == |events| + 1
  {
    Served(crc, target, events[i], statuses[i], trace[i], trace[i + 1])
  }

  ghost predicate Trace(crc: Checksum, target: Slot, events: seq<UsbEvent>, statuses: seq<Status>, trace: seq<Moment>) {
    && |statuses| == |events| && |trace| == |events| + 1 && trace[0].session.None?
    && forall i: nat :: i < |events| ==> ServedAt(crc, target, events, statuses, trace, i)
  }

  /** Only the target slot and the metadata change on the way from one moment to another, at every cut. */
  ghost predicate Confines(was: Moment, now: Moment, target: Slot) {
    Confined(was.mem, now.mem, target, META_END) && now.cuts <= was.cuts + SessionCuts(was.mem, target, META_END)
  }

  lemma ConfinesChain(a: Moment, b: Moment, c: Moment, target: Slot)
    requires Confines(a, b, target) && Confines(b, c, target)
    ensures Confines(a, c, target)
  {
    ConfinedChain(a.mem, b.mem, target, META_END);
  }

  /** What stays below the control log changes neither the log nor the images of it that a cut may leave. */
  lemma BelowControl(crc: Checksum, was: Moment, now: Moment, target: Slot)
    requires Confined(was.mem, now.mem, target, CONTROL)
    requires now.cuts <= was.cuts + SessionCuts(was.mem, target, CONTROL)
    ensures LogKept(crc, was, now) && Confines(was, now, target)
  {
    ConfinedKeepsControl(crc, was.mem, now.mem, target);
    forall m | m in now.cuts && m !in was.cuts
      ensures SameLog(crc, was.mem, m) && Confined(was.mem, m, target, META_END)
    {
      ConfinedKeepsControl(crc, was.mem, m, target);
    }
  }

  lemma HeldIsUnderway(crc: Checksum, target: Slot, p: Progress, s: State)
    requires s.Valid() && s.Holds(p.start, p.image) && s.base == SlotOffset(target)
    requires |p.image| >= HEADER_SIZE && HeaderValid(crc, p.image, target)
    ensures Underway(crc, target, p, s.mem)
  {
    HeldFlash(s, p.start, p.image);
  }

  /** What a block does to the session, and where in flash. */
  method TakeBlock(session: Session, blockNum: u16, data: Block) returns (status: Status)
    requires session.Valid()
    modifies session, session.writer, session.writer.buf, session.flash
    ensures session.Valid()
    ensures var e, was, now := DnLoad(blockNum, data), old(Now(session)), Now(session);
            && was.failures <= now.failures
            && status == Answer(session.crc, session.slot, e, was.session, was.failures != now.failures)
            && Advances(session.crc, session.slot, e, status, was, now)
            && (was.session.None? && !Reopens(session.crc, session.slot, e) ==> now == was)
    ensures Confined(old(Now(session)).mem, Now(session).mem, session.slot, CONTROL)
    ensures Now(session).cuts <= old(Now(session)).cuts + SessionCuts(old(Now(session)).mem, session.slot, CONTROL)
  {
    status := session.Download(blockNum, data);
  }

  method ServeBlock(session: Session, blockNum: u16, data: Block) returns (status: Status)
    requires session.Valid()
    modifies session, session.writer, session.writer.buf, session.flash
    ensures session.Valid()
    ensures Served(session.crc, session.slot, DnLoad(blockNum, data), status, old(Now(session)), Now(session))
    ensures Confines(old(Now(session)), Now(session), session.slot)
  {
    status := TakeBlock(session, blockNum, data);
    ghost var now := Now(session);
    BelowControl(session.crc, old(Now(session)), now, session.slot);
    if now.session.Some? {
      HeldIsUnderway(session.crc, session.slot, now.session.value, session.writer.View());
    }
  }

  method ServeManifest(session: Session) returns (status: Status)
    requires session.Valid()
    modifies session, session.writer, session.flash
    ensures session.Valid()
    ensures Served(session.crc, session.slot, ZeroLength, status, old(Now(session)), Now(session))
    ensures Confines(old(Now(session)), Now(session), session.slot)
  {
    status := session.Manifest();
  }

  method Serve(session: Session, e: UsbEvent) returns (status: Status)
    requires session.Valid()
    modifies session, session.writer, session.writer.buf, session.flash
    ensures session.Valid()
    ensures Served(session.crc, session.slot, e, status, old(Now(session)), Now(session))
    ensures Confines(old(Now(session)), Now(session), session.slot)
  {
    match e
    case DnLoad(blockNum, data) =>
      status := ServeBlock(session, blockNum, data);
    case ZeroLength =>
      status := ServeManifest(session);
    case DfuAbort =>
      session.Abort();
      status := Ok;
  }

  /** dfu_run: serve the host's requests, in whatever order they come. */
  method DfuRun(crc: Checksum, flash: Flash, target: Slot, events: seq<UsbEvent>)
    returns (statuses: seq<Status>, ghost trace: seq<Moment>)
    requires flash.Valid()
    modifies flash
    ensures flash.Valid() && Confined(old(flash.mem), flash.mem, target, META_END)
    ensures flash.exposed <= old(flash.exposed) + SessionCuts(old(flash.mem), target, META_END)
    ensures Trace(crc, target, events, statuses, trace)
    ensures trace[0] == Moment(old(flash.mem), old(flash.exposed), old(flash.failures), None)
    ensures var last := trace[|events|];
            last.mem == flash.mem && last.cuts == flash.exposed && last.failures == flash.failures
  {
    var session := new Session(crc, flash, target);
    statuses := [];
    ghost var start := Now(session);
    trace := [start];
    for i := 0 to |events|
      invariant session.Valid() && session.flash == flash && session.slot == target && session.crc == crc
      invariant fresh(session) && fresh(session.writer) && fresh(session.writer.buf)
      invariant Trace(crc, target, events[..i], statuses, trace) && trace[i] == Now(session)
      invariant trace[0] == start && Confines(start, trace[i], target)
    {
      var status := Serve(session, events[i]);
      TraceGrows(crc, target, events[..i], statuses, trace, events[i], status, Now(session));
      ConfinesChain(start, trace[i], Now(session), target);
      assert events[..i] + [events[i]] == events[..i + 1];
      statuses, trace := statuses + [status], trace + [Now(session)];
    }
    assert events[..|events|] == events;
  }

  lemma TraceGrows(crc: Checksum, target: Slot, events: seq<UsbEvent>, statuses: seq<Status>, trace: seq<Moment>,
                   e: UsbEvent, status: Status, now: Moment)
    requires Trace(crc, target, events, statuses, trace) && Served(crc, target, e, status, trace[|events|], now)
    ensures Trace(crc, target, events + [e], statuses + [status], trace + [now])
    ensures (trace + [now])[0] == trace[0] && (trace + [now])[|events| + 1] == now
  {
    var es, ss, t := events + [e], statuses + [status], trace + [now];
    forall i: nat | i < |es| ensures ServedAt(crc, target, es, ss, t, i) {
      if i < |events| {
        assert ServedAt(crc, target, events, statuses, trace, i);
      }
    }
  }

  // What the host sent, and what an OK manifest installs.

  /** The bytes of a stretch of requests, in order. */
  function Blocks(events: seq<UsbEvent>): seq<byte> {
    if events == [] then []
    else Blocks(events[..|events| - 1]) + (if events[|events| - 1].DnLoad? then events[|events| - 1].data else [])
  }

  /** Requests k up to j are the blocks 0, 1, 2, .. of one session, each of them accepted. */
  ghost predicate OneSession(crc: Checksum, target: Slot, events: seq<UsbEvent>, statuses: seq<Status>, k: nat, j: nat)
    requires j <= |events| == |statuses|
  {
    && k < j && Reopens(crc, target, events[k])
    && forall i :: k <= i < j ==> events[i].DnLoad? && events[i].blockNum == i - k && statuses[i] == Ok
  }

  ghost predicate InSession(crc: Checksum, target: Slot, events: seq<UsbEvent>, statuses: seq<Status>, j: nat)
    requires j <= |events| == |statuses|
  {
    exists k: nat :: OneSession(crc, target, events, statuses, k, j)
  }

  /** What a session that began at one moment and got these bytes has become. */
  ghost predicate Carries(began: Moment, now: Moment, image: seq<byte>, next: nat) {
    now.session.Some? && now.session.value.image == image && now.session.value.next == next
    && OnlyWithin(began.mem, now.session.value.start, META_A, CONTROL)
  }

  lemma CarriesMore(crc: Checksum, target: Slot, e: UsbEvent, began: Moment, was: Moment, now: Moment,
                    image: seq<byte>, next: nat)
    requires e.DnLoad? && e.blockNum == next && Advances(crc, target, e, Ok, was, now)
    requires if next == 0 then was == began && image == [] else Carries(began, was, image, next)
    ensures Carries(began, now, image + e.data, next + 1)
  {
    if next == 0 {
      assert image + e.data == e.data;
    }
  }

  lemma AdvancesAt(crc: Checksum, target: Slot, events: seq<UsbEvent>, statuses: seq<Status>, trace: seq<Moment>,
                   i: nat)
    requires Trace(crc, target, events, statuses, trace) && i < |events|
    ensures Advances(crc, target, events[i], statuses[i], trace[i], trace[i + 1])
  {
    assert ServedAt(crc, target, events, statuses, trace, i);
  }

  lemma BlocksGrow(events: seq<UsbEvent>, k: nat, j: nat)
    requires k <= j < |events| && events[j].DnLoad?
    ensures Blocks(events[k..j + 1]) == Blocks(events[k..j]) + events[j].data
  {
    assert events[k..j + 1][..j - k] == events[k..j];
  }

  /** After such requests the session is open, with exactly their bytes. */
  lemma {:induction false} SessionHolds(crc: Checksum, target: Slot, events: seq<UsbEvent>, statuses: seq<Status>,
                                        trace: seq<Moment>, k: nat, j: nat)
    requires Trace(crc, target, events, statuses, trace) && j <= |events|
    requires OneSession(crc, target, events, statuses, k, j)
    ensures Carries(trace[k], trace[j], Blocks(events[k..j]), j - k)
    decreases j
  {
    var i := j - 1;
    if i > k {
      SessionHolds(crc, target, events, statuses, trace, k, i);
    }
    BlocksGrow(events, k, i);
    AdvancesAt(crc, target, events, statuses, trace, i);
    CarriesMore(crc, target, events[i], trace[k], trace[i], trace[i + 1], Blocks(events[k..i]), i - k);
  }

  /** A session is open exactly after such requests: nothing is downloaded but the blocks the host was told were Ok. */
  lemma {:induction false} SessionBlocks(crc: Checksum, target: Slot, events: seq<UsbEvent>, statuses: seq<Status>,
                                         trace: seq<Moment>, j: nat)
    requires Trace(crc, target, events, statuses, trace) && j <= |events|
    ensures trace[j].session.Some? <==> InSession(crc, target, events, statuses, j)
    ensures forall k: nat :: OneSession(crc, target, events, statuses, k, j) ==>
                               Carries(trace[k], trace[j], Blocks(events[k..j]), j - k)
    decreases j
  {
    forall k: nat | OneSession(crc, target, events, statuses, k, j)
      ensures Carries(trace[k], trace[j], Blocks(events[k..j]), j - k)
    {
      SessionHolds(crc, target, events, statuses, trace, k, j);
    }
    if j > 0 && trace[j].session.Some? {
      SessionBlocks(crc, target, events, statuses, trace, j - 1);
      SessionBegins(crc, target, events, statuses, trace, j);
    }
  }

  lemma SessionBegins(crc: Checksum, target: Slot, events: seq<UsbEvent>, statuses: seq<Status>, trace: seq<Moment>,
                      j: nat)
    requires Trace(crc, target, events, statuses, trace) && 0 < j <= |events| && trace[j].session.Some?
    requires trace[j - 1].session.Some? ==> InSession(crc, target, events, statuses, j - 1)
    ensures InSession(crc, target, events, statuses, j)
  {
    AdvancesAt(crc, target, events, statuses, trace, j - 1);
    if trace[j - 1].session.Some? && events[j - 1].blockNum != 0 {
      var k: nat :| OneSession(crc, target, events, statuses, k, j - 1);
      SessionHolds(crc, target, events, statuses, trace, k, j - 1);
      assert OneSession(crc, target, events, statuses, k, j);
    } else {
      assert OneSession(crc, target, events, statuses, j - 1, j);
    }
  }

  lemma ManifestAt(crc: Checksum, target: Slot, events: seq<UsbEvent>, statuses: seq<Status>, trace: seq<Moment>,
                   i: nat)
    requires Trace(crc, target, events, statuses, trace) && i < |events| && events[i].ZeroLength? && statuses[i] == Ok
    ensures trace[i].session.Some? && trace[i + 1].session.None?
    ensures Installed(crc, target, trace[i].session.value.image, trace[i].mem, trace[i + 1].mem)
    ensures SlotValid(crc, trace[i + 1].mem, target)
  {
    assert ServedAt(crc, target, events, statuses, trace, i);
  }

  /** An OK manifest vouches for the blocks sent: the slot holds exactly them, in order, and is valid and pending. */
  lemma InstalledBlocks(crc: Checksum, target: Slot, events: seq<UsbEvent>, statuses: seq<Status>, trace: seq<Moment>,
                        i: nat)
    requires Trace(crc, target, events, statuses, trace) && i < |events| && events[i].ZeroLength? && statuses[i] == Ok
    ensures InSession(crc, target, events, statuses, i)
    ensures forall k: nat :: OneSession(crc, target, events, statuses, k, i) ==>
                               Installed(crc, target, Blocks(events[k..i]), trace[i].mem, trace[i + 1].mem)
  {
    ManifestAt(crc, target, events, statuses, trace, i);
    SessionBlocks(crc, target, events, statuses, trace, i);
  }

  ghost predicate NotReopened(crc: Checksum, target: Slot, events: seq<UsbEvent>, i: nat, j: nat)
    requires j <= |events|
  {
    forall k :: i <= k < j ==> !Reopens(crc, target, events[k])
  }

  /** Request i was an OK manifest, and none of those after it and before j reopened the download. */
  ghost predicate InstalledAt(crc: Checksum, target: Slot, events: seq<UsbEvent>, statuses: seq<Status>, i: nat, j: nat)
    requires i < j <= |events| == |statuses|
  {
    events[i].ZeroLength? && statuses[i] == Ok && NotReopened(crc, target, events, i + 1, j)
  }

  /** Without a session only a block 0 with a header valid for the target does anything. */
  lemma {:induction false} IdleStays(crc: Checksum, target: Slot, events: seq<UsbEvent>, statuses: seq<Status>,
                                     trace: seq<Moment>, i: nat, j: nat)
    requires Trace(crc, target, events, statuses, trace) && i <= j <= |events| && trace[i].session.None?
    requires NotReopened(crc, target, events, i, j)
    ensures trace[j] == trace[i]
    decreases j
  {
    if i < j {
      IdleStays(crc, target, events, statuses, trace, i, j - 1);
      assert !Reopens(crc, target, events[j - 1]) && ServedAt(crc, target, events, statuses, trace, j - 1);
    }
  }

  /** An installed image stays, whatever else the host sends, until the download is reopened: at every cut. */
  lemma InstalledStays(crc: Checksum, target: Slot, events: seq<UsbEvent>, statuses: seq<Status>, trace: seq<Moment>,
                       i: nat, j: nat)
    requires Trace(crc, target, events, statuses, trace) && i < j <= |events|
    requires InstalledAt(crc, target, events, statuses, i, j)
    ensures trace[j] == trace[i + 1] && SlotValid(crc, trace[j].mem, target)
  {
    ManifestAt(crc, target, events, statuses, trace, i);
    IdleStays(crc, target, events, statuses, trace, i + 1, j);
  }

  lemma LogKeptChain(crc: Checksum, a: Moment, b: Moment, c: Moment)
    requires LogKept(crc, a, b) && LogKept(crc, b, c)
    ensures LogKept(crc, a, c)
  {
  }

  lemma LogKeptAt(crc: Checksum, target: Slot, events: seq<UsbEvent>, statuses: seq<Status>, trace: seq<Moment>, i: nat)
    requires Trace(crc, target, events, statuses, trace) && i < |events| && !Manifests(events[i], trace[i])
    ensures LogKept(crc, trace[i], trace[i + 1])
  {
    assert ServedAt(crc, target, events, statuses, trace, i);
  }

  /** Nothing but the manifest of an open session changes the control log, in flash or in what a cut may leave. */
  lemma {:induction false} LogChangesOnlyByManifest(crc: Checksum, target: Slot, events: seq<UsbEvent>,
                                                    statuses: seq<Status>, trace: seq<Moment>, i: nat, j: nat)
    requires Trace(crc, target, events, statuses, trace) && i <= j <= |events|
    requires forall k :: i <= k < j ==> !Manifests(events[k], trace[k])
    ensures LogKept(crc, trace[i], trace[j])
    decreases j - i
  {
    if i < j {
      LogKeptAt(crc, target, events, statuses, trace, i);
      LogChangesOnlyByManifest(crc, target, events, statuses, trace, i + 1, j);
      LogKeptChain(crc, trace[i], trace[i + 1], trace[j]);
    }
  }

  lemma ManifestedAt(crc: Checksum, target: Slot, events: seq<UsbEvent>, statuses: seq<Status>, trace: seq<Moment>,
                     i: nat)
    requires Trace(crc, target, events, statuses, trace) && i < |events| && Manifests(events[i], trace[i])
    ensures trace[i + 1].session.None? && LogFollowsSlot(crc, target, trace[i], trace[i + 1])
  {
    assert ServedAt(crc, target, events, statuses, trace, i);
  }

  lemma LogFollowsChain(crc: Checksum, target: Slot, a: Moment, b: Moment, c: Moment)
    requires LogKept(crc, a, b) && LogFollowsSlot(crc, target, b, c)
    ensures LogFollowsSlot(crc, target, a, c)
  {
  }

  /**
   * Request i may open the download; until it is opened once more, wherever power fails the control log is as it was
   * or the target is already valid.
   */
  lemma {:induction false} LogNeverAhead(crc: Checksum, target: Slot, events: seq<UsbEvent>, statuses: seq<Status>,
                                         trace: seq<Moment>, i: nat, j: nat)
    requires Trace(crc, target, events, statuses, trace) && i <= j <= |events|
    requires NotReopened(crc, target, events, i + 1, j)
    ensures LogFollowsSlot(crc, target, trace[i], trace[j])
    decreases j - i
  {
    if i < j {
      if Manifests(events[i], trace[i]) {
        ManifestedAt(crc, target, events, statuses, trace, i);
        IdleStays(crc, target, events, statuses, trace, i + 1, j);
      } else {
        LogKeptAt(crc, target, events, statuses, trace, i);
        LogNeverAhead(crc, target, events, statuses, trace, i + 1, j);
        LogFollowsChain(crc, target, trace[i], trace[i + 1], trace[j]);
      }
    }
  }

  /** With the other slot valid, every image a cut of the run may leave has it valid still. */
  lemma OtherSlotSurvives(crc: Checksum, m0: Mem, m: Mem, target: Slot)
    requires m in SessionCuts(m0, target, META_END) && SlotValid(crc, m0, Other(target))
    ensures SomeSlotValid(crc, m)
  {
    ConfinedKeepsOther(crc, m0, m, target);
    EitherSlot(crc, m, target);
  }

  lemma EitherSlot(crc: Checksum, m: Mem, slot: Slot)
    ensures SomeSlotValid(crc, m) <==> SlotValid(crc, m, slot) || SlotValid(crc, m, Other(slot))
  {
    assert slot == 0 || slot == 1;
  }

  /** After a commit whose save takes, the next unforced decision starts the new image. */
  lemma CommitThenBoot(cells: seq<Cell>, c: Control, slot: Slot, v: Validity)
    requires cells != [] && SaveTakes(cells) && v.Of(slot) && c.Legal()
    ensures var after := Load(Saved(cells, Boot.Committed(c, slot)));
            && after.Some? && after.value.Legal() && Decide(after.value, v) == StartApp(slot)
            && after.value.active == c.active && after.value.attempts == 0 && after.value.confirmed == 0
  {
    SaveIsDurable(cells, Boot.Committed(c, slot));
  }

  /** The flash has exactly these bytes in the slot, and an unforced decision starts them. */
  ghost predicate Starts(crc: Checksum, m: Mem, target: Slot, image: seq<byte>) {
    && |image| <= SLOT_SIZE && m[SlotOffset(target)..SlotOffset(target) + |image|] == image
    && Decide(ControlOf(crc, m), ValidityOf(crc, m)) == StartApp(target)
  }

  /**
   * From an OK manifest on, until a download is reopened, a reset at any moment starts the image whose blocks the host
   * sent: blocks 0, 1, 2, .. of one session, each of them answered Ok, and nothing else.
   */
  lemma ManifestThenBoot(crc: Checksum, target: Slot, events: seq<UsbEvent>, statuses: seq<Status>, trace: seq<Moment>,
                         i: nat, j: nat)
    requires Trace(crc, target, events, statuses, trace) && i < j <= |events|
    requires InstalledAt(crc, target, events, statuses, i, j) && SaveTakes(Cells(crc, trace[i].mem))
    ensures InSession(crc, target, events, statuses, i)
    ensures forall k: nat :: OneSession(crc, target, events, statuses, k, i) ==>
                               Starts(crc, trace[j].mem, target, Blocks(events[k..i]))
  {
    InstalledBlocks(crc, target, events, statuses, trace, i);
    InstalledStays(crc, target, events, statuses, trace, i, j);
    forall k: nat | OneSession(crc, target, events, statuses, k, i)
      ensures Starts(crc, trace[j].mem, target, Blocks(events[k..i]))
    {
      InstalledStarts(crc, target, Blocks(events[k..i]), trace[i].mem, trace[j].mem);
    }
  }

  lemma InstalledStarts(crc: Checksum, target: Slot, image: seq<byte>, was: Mem, now: Mem)
    requires Installed(crc, target, image, was, now) && SaveTakes(Cells(crc, was))
    ensures Starts(crc, now, target, image)
  {
    CommitThenBoot(Cells(crc, was), ControlOf(crc, was), target, ValidityOf(crc, now));
  }

  // What is sure to succeed.

  /** Requests k on bring an image in blocks 0, 1, 2, .., n of them and none empty, and then ask for its manifest. */
  ghost predicate Sends(events: seq<UsbEvent>, k: nat, n: nat, image: seq<byte>)
    requires k + n < |events|
  {
    && n > 0 && Blocks(events[k..k + n]) == image && events[k + n].ZeroLength?
    && (forall i :: k <= i < k + n ==> events[i].DnLoad? && events[i].blockNum == i - k && events[i].data != [])
    && |events[k].data| >= HEADER_SIZE
  }

  lemma AnsweredAt(crc: Checksum, target: Slot, events: seq<UsbEvent>, statuses: seq<Status>, trace: seq<Moment>,
                   i: nat)
    requires Trace(crc, target, events, statuses, trace) && i < |events|
    ensures trace[i].failures <= trace[i + 1].failures
    ensures var failed := trace[i].failures != trace[i + 1].failures;
            statuses[i] == Answer(crc, target, events[i], trace[i].session, failed)
  {
    assert ServedAt(crc, target, events, statuses, trace, i);
  }

  lemma {:induction false} FailuresGrow(crc: Checksum, target: Slot, events: seq<UsbEvent>, statuses: seq<Status>,
                                        trace: seq<Moment>, i: nat, j: nat)
    requires Trace(crc, target, events, statuses, trace) && i <= j <= |events|
    ensures trace[i].failures <= trace[j].failures
    decreases j - i
  {
    if i < j {
      AnsweredAt(crc, target, events, statuses, trace, i);
      FailuresGrow(crc, target, events, statuses, trace, i + 1, j);
    }
  }

  lemma {:induction false} BlocksPrefix(events: seq<UsbEvent>, k: nat, j: nat, m: nat)
    requires k <= j <= m <= |events| && forall i :: j <= i < m ==> events[i].DnLoad?
    ensures Blocks(events[k..j]) <= Blocks(events[k..m])
    decreases m
  {
    if j < m {
      BlocksPrefix(events, k, j, m - 1);
      BlocksGrow(events, k, m - 1);
    }
  }

  /** The next block of an image that fits the slot is one the session takes. */
  lemma NextBlockFits(crc: Checksum, target: Slot, events: seq<UsbEvent>, k: nat, n: nat, image: seq<byte>, j: nat)
    requires k + n < |events| && Sends(events, k, n, image) && k <= j < k + n && |image| <= SLOT_SIZE
    requires |image| >= HEADER_SIZE && HeaderValid(crc, image, target)
    ensures |Blocks(events[k..j])| + |events[j].data| <= SLOT_SIZE
    ensures j == k ==> Opens(crc, target, events[j].blockNum, events[j].data)
  {
    BlocksGrow(events, k, j);
    BlocksPrefix(events, k, j + 1, k + n);
    if j == k {
      var first := events[k].data;
      assert Blocks(events[k..k]) + first == first;
      assert image[..|first|] == first;
      HeaderOfPrefix(crc, image, |first|, target);
    }
  }

  lemma FittingBlock(crc: Checksum, target: Slot, e: UsbEvent, open: Option<Progress>, next: nat)
    requires e.DnLoad? && e.blockNum == next && e.data != []
    requires if next == 0 then Opens(crc, target, e.blockNum, e.data)
             else open.Some? && open.value.next == next && |open.value.image| + |e.data| <= SLOT_SIZE
    ensures Answer(crc, target, e, open, false) == Ok
  {
  }

  lemma {:induction false} BlocksAccepted(crc: Checksum, target: Slot, events: seq<UsbEvent>, statuses: seq<Status>,
                                          trace: seq<Moment>, k: nat, n: nat, image: seq<byte>, j: nat)
    requires Trace(crc, target, events, statuses, trace) && k + n < |events| && Sends(events, k, n, image)
    requires HEADER_SIZE <= |image| <= SLOT_SIZE && HeaderValid(crc, image, target)
    requires trace[k].failures == trace[k + n].failures && k < j <= k + n
    ensures OneSession(crc, target, events, statuses, k, j)
    decreases j
  {
    var i := j - 1;
    if i > k {
      BlocksAccepted(crc, target, events, statuses, trace, k, n, image, i);
      SessionHolds(crc, target, events, statuses, trace, k, i);
    }
    FailuresGrow(crc, target, events, statuses, trace, k, i);
    FailuresGrow(crc, target, events, statuses, trace, j, k + n);
    AnsweredAt(crc, target, events, statuses, trace, i);
    NextBlockFits(crc, target, events, k, n, image, i);
    FittingBlock(crc, target, events[i], trace[i].session, i - k);
  }

  lemma ManifestAccepted(crc: Checksum, target: Slot, events: seq<UsbEvent>, statuses: seq<Status>, trace: seq<Moment>,
                         k: nat, i: nat)
    requires Trace(crc, target, events, statuses, trace) && i < |events|
    requires OneSession(crc, target, events, statuses, k, i)
    requires events[i].ZeroLength? && trace[i].failures == trace[i + 1].failures
    requires Complete(crc, Blocks(events[k..i]))
    ensures statuses[i] == Ok
  {
    SessionHolds(crc, target, events, statuses, trace, k, i);
    AnsweredAt(crc, target, events, statuses, trace, i);
  }

  /**
   * Without a failure of the flash a good image cannot be refused: whatever was there before, blocks 0, 1, 2, .. of an
   * image with a valid header, the right length and the right checksum are all answered Ok, and the manifest too.
   */
  lemma DownloadSucceeds(crc: Checksum, target: Slot, events: seq<UsbEvent>, statuses: seq<Status>, trace: seq<Moment>,
                         k: nat, n: nat, image: seq<byte>)
    requires Trace(crc, target, events, statuses, trace) && k + n < |events| && Sends(events, k, n, image)
    requires Complete(crc, image) && HeaderValid(crc, image, target)
    requires trace[k].failures == trace[k + n + 1].failures
    ensures OneSession(crc, target, events, statuses, k, k + n)
    ensures forall i :: k <= i <= k + n ==> statuses[i] == Ok
  {
    FailuresGrow(crc, target, events, statuses, trace, k, k + n);
    FailuresGrow(crc, target, events, statuses, trace, k + n, k + n + 1);
    BlocksAccepted(crc, target, events, statuses, trace, k, n, image, k + n);
    ManifestAccepted(crc, target, events, statuses, trace, k, k + n);
  }

  lemma SendingKeepsLog(crc: Checksum, target: Slot, events: seq<UsbEvent>, statuses: seq<Status>, trace: seq<Moment>,
                        k: nat, i: nat)
    requires Trace(crc, target, events, statuses, trace) && i < |events|
    requires OneSession(crc, target, events, statuses, k, i)
    ensures SameLog(crc, trace[k].mem, trace[i].mem)
  {
    LogChangesOnlyByManifest(crc, target, events, statuses, trace, k, i);
  }

  lemma SessionStarts(crc: Checksum, target: Slot, events: seq<UsbEvent>, statuses: seq<Status>, trace: seq<Moment>,
                      k: nat, i: nat, image: seq<byte>, j: nat)
    requires Trace(crc, target, events, statuses, trace) && i < j <= |events|
    requires OneSession(crc, target, events, statuses, k, i) && image == Blocks(events[k..i])
    requires InstalledAt(crc, target, events, statuses, i, j) && SaveTakes(Cells(crc, trace[k].mem))
    ensures Starts(crc, trace[j].mem, target, image)
  {
    SendingKeepsLog(crc, target, events, statuses, trace, k, i);
    ManifestThenBoot(crc, target, events, statuses, trace, i, j);
  }

  /**
   * ... and until a download is reopened the image is in the slot, byte for byte, and a reset starts it, if the control
   * log takes a save.
   */
  lemma UpdateSucceeds(crc: Checksum, target: Slot, events: seq<UsbEvent>, statuses: seq<Status>, trace: seq<Moment>,
                       k: nat, n: nat, image: seq<byte>, j: nat)
    requires Trace(crc, target, events, statuses, trace) && k + n < j <= |events| && Sends(events, k, n, image)
    requires Complete(crc, image) && HeaderValid(crc, image, target) && SaveTakes(Cells(crc, trace[k].mem))
    requires trace[k].failures == trace[k + n + 1].failures && NotReopened(crc, target, events, k + n + 1, j)
    ensures Starts(crc, trace[j].mem, target, image)
  {
    DownloadSucceeds(crc, target, events, statuses, trace, k, n, image);
    SessionStarts(crc, target, events, statuses, trace, k, k + n, image, j);
  }
}
