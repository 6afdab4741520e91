/** The DFU download session (bootloader/src/dfu.c), after sections 6.1 and 7 of USB DFU 1.1. */
module Dfu {
  import opened Bytes
  import opened Layout
  import opened Options
  import opened Nor
  import opened Writer
  import opened ControlLog
  import opened BootMeta
  import opened Boot

  datatype Status = Ok | ErrFirmware | ErrWrite | ErrAddress | ErrNotDone | ErrVerify

  /** What one request carries: its length is 16 bits wide. */
  type Block = s: seq<byte> | |s| < 0x1_0000 witness []

  /** An open session: its blocks so far, the number of the next one, and the flash it began with. */
  datatype Progress = Progress(image: seq<byte>, next: nat, start: Mem)

  /** Nothing changes outside the target slot and the metadata sectors below `meta`. */
  ghost predicate Confined(m: Mem, m': Mem, slot: byte, meta: nat) {
    forall i :: 0 <= i < FLASH_SIZE && !(SlotOffset(slot) <= i < SlotOffset(slot) + SLOT_SIZE) && !(META_A <= i < meta)
                ==> m'[i] == m[i]
  }

  ghost function SessionCuts(m: Mem, slot: byte, meta: nat): iset<Mem> {
    iset m': Mem | Confined(m, m', slot, meta)
  }

  const META_END := CONTROL + SECTOR_SIZE

  lemma SlotCuts(m0: Mem, m: Mem, slot: byte, meta: nat)
    requires Confined(m0, m, slot, meta)
    ensures Cuts(m, SlotOffset(slot), SlotOffset(slot) + SLOT_SIZE) <= SessionCuts(m0, slot, meta)
  {
  }

  lemma MetaCuts(m0: Mem, m: Mem, slot: byte, meta: nat)
    requires Confined(m0, m, slot, meta)
    ensures Cuts(m, META_A, meta) <= SessionCuts(m0, slot, meta)
  {
  }

  /** A session that keeps below the control log leaves the log alone. */
  lemma ConfinedKeepsControl(crc: Checksum, m: Mem, m': Mem, slot: byte)
    requires Confined(m, m', slot, CONTROL)
    ensures Cells(crc, m') == Cells(crc, m)
  {
    assert m[CONTROL..META_END] == m'[CONTROL..META_END];
    SameControl(crc, m, m');
  }

  /** The slot that is not the target is as it was, wherever power fails. */
  lemma ConfinedKeepsOther(crc: Checksum, m: Mem, m': Mem, slot: Slot)
    requires Confined(m, m', slot, META_END)
    ensures SlotValid(crc, m', Other(slot)) == SlotValid(crc, m, Other(slot))
  {
    assert SameSlot(m, m', Other(slot));
    SameSlotSameValidity(crc, m, m', Other(slot));
  }

  /** An image in place passes for a valid slot exactly when its header and checksum say so. */
  lemma InstalledIsValid(crc: Checksum, m: Mem, slot: Slot, image: seq<byte>)
    requires HEADER_SIZE <= |image| <= SLOT_SIZE
    requires m[SlotOffset(slot)..SlotOffset(slot) + |image|] == image
    ensures ParseHeader(HeaderBytes(m, slot)) == ParseHeader(image)
    ensures HeaderValid(crc, HeaderBytes(m, slot), slot) == HeaderValid(crc, image, slot)
    ensures var h := ParseHeader(image);
            |image| == HEADER_SIZE + h.imageSize ==>
              && Payload(m, slot, h.imageSize) == image[HEADER_SIZE..]
              && (SlotValid(crc, m, slot) <==> HeaderValid(crc, image, slot) && crc(image[HEADER_SIZE..]) == h.imageCrc)
  {
    var lo := SlotOffset(slot);
    SliceOfSlice(m, lo, lo + |image|, 0, HEADER_SIZE);
    SliceOfSlice(m, lo, lo + |image|, HEADER_SIZE, |image|);
    assert image[..HEADER_SIZE][..HEADER_CRC_LEN] == image[..HEADER_CRC_LEN];
    assert image[..HEADER_SIZE][HEADER_CRC_LEN..HEADER_CRC_LEN + 4] == image[HEADER_CRC_LEN..HEADER_CRC_LEN + 4];
  }

  /** The header is in the first bytes: what follows does not matter to it. */
  lemma HeaderOfPrefix(crc: Checksum, image: seq<byte>, n: nat, slot: Slot)
    requires HEADER_SIZE <= n <= |image|
    ensures ParseHeader(image[..n]) == ParseHeader(image)
    ensures HeaderValid(crc, image[..n], slot) == HeaderValid(crc, image, slot)
  {
    assert image[..n][..HEADER_CRC_LEN] == image[..HEADER_CRC_LEN];
    assert image[..n][HEADER_CRC_LEN..HEADER_CRC_LEN + 4] == image[HEADER_CRC_LEN..HEADER_CRC_LEN + 4];
  }

  /** A valid header stays one under the blocks that follow; before the first block it is the block's own. */
  lemma HeaderStays(crc: Checksum, image: seq<byte>, data: seq<byte>, slot: Slot)
    requires var first := if image == [] then data else image;
             |first| >= HEADER_SIZE && HeaderValid(crc, first, slot)
    ensures |image + data| >= HEADER_SIZE && HeaderValid(crc, image + data, slot)
    ensures image == [] ==> image + data == data
  {
    if image == [] {
      assert image + data == data;
    } else {
      assert (image + data)[..|image|] == image;
      HeaderOfPrefix(crc, image + data, |image|, slot);
    }
  }

  /** A first block that opens a session: a whole header, valid for the target. */
  predicate Opens(crc: Checksum, slot: Slot, blockNum: u16, data: Block) {
    blockNum == 0 && |data| >= HEADER_SIZE && HeaderValid(crc, data, slot)
  }

  /** What a block is answered, also when some flash operation fails on the way. */
  function BlockAnswer(crc: Checksum, slot: Slot, open: Option<Progress>, blockNum: u16, data: Block, failed: bool)
    : Status
  {
    if open.Some? && blockNum != 0 then
      if blockNum != open.value.next then ErrWrite
      else if |open.value.image| + |data| > SLOT_SIZE then ErrAddress
      else if data == [] || failed then ErrWrite
      else Ok
    else if !Opens(crc, slot, blockNum, data) then ErrFirmware
    else if failed then ErrWrite
    else Ok
  }

  /** An image of the length its header names, with the payload checksum it names. */
  predicate Complete(crc: Checksum, image: seq<byte>) {
    && RightLength(image) && crc(image[HEADER_SIZE..]) == ParseHeader(image).imageCrc
  }

  predicate RightLength(image: seq<byte>) {
    |image| >= HEADER_SIZE && |image| == HEADER_SIZE + ParseHeader(image).imageSize
  }

  /** A slot with a session's bytes in it, read back. */
  lemma ReadBack(crc: Checksum, m: Mem, slot: Slot, image: seq<byte>)
    requires HEADER_SIZE <= |image| <= SLOT_SIZE && HeaderValid(crc, image, slot)
    requires m[SlotOffset(slot)..SlotOffset(slot) + |image|] == image
    ensures HeaderValid(crc, HeaderBytes(m, slot), slot) && ParseHeader(HeaderBytes(m, slot)) == ParseHeader(image)
    ensures var h := ParseHeader(image);
            RightLength(image) ==>
              && (crc(Payload(m, slot, h.imageSize)) == h.imageCrc <==> Complete(crc, image))
              && (Complete(crc, image) ==> SlotValid(crc, m, slot))
  {
    InstalledIsValid(crc, m, slot, image);
  }

  /** What a manifest is answered. */
  function ManifestAnswer(crc: Checksum, open: Option<Progress>, failed: bool): Status {
    if open.None? then ErrNotDone
    else if failed then ErrWrite
    else if !RightLength(open.value.image) then ErrFirmware
    else if !Complete(crc, open.value.image) then ErrVerify
    else Ok
  }

  /** Everything an OK manifest vouches for: the blocks are in the slot, which is valid, and it is made pending. */
  ghost predicate Installed(crc: Checksum, slot: Slot, image: seq<byte>, was: Mem, now: Mem) {
    && HEADER_SIZE <= |image| <= SLOT_SIZE
    && now[SlotOffset(slot)..SlotOffset(slot) + |image|] == image
    && HeaderValid(crc, image, slot) && |image| == HEADER_SIZE + ParseHeader(image).imageSize
    && SlotValid(crc, now, slot)
    && Cells(crc, now) == Saved(Cells(crc, was), Boot.Committed(ControlOf(crc, was), slot))
  }

  class Session {
    const crc: Checksum
    const flash: Flash
    const writer: SectorWriter
    const slot: Slot
    var active: bool
    var base: nat
    var received: nat
    var expectBlock: nat
    /** The blocks accepted in the current session, and the flash it began with. */
    ghost var image: seq<byte>
    ghost var start: Mem

    ghost function Current(): Option<Progress>
      reads this
    {
      if active then Some(Progress(image, expectBlock, start)) else None
    }

    ghost predicate Valid()
      reads this, flash, writer, writer.buf
    {
      && writer.flash == flash && writer.Valid()
      && (active ==>
            && base == SlotOffset(slot) == writer.base
            && received == |image| && HEADER_SIZE <= |image| && HeaderValid(crc, image, slot)
            && writer.View().Holds(start, image))
    }

    constructor (crc: Checksum, flash: Flash, slot: Slot)
      requires flash.Valid()
      ensures Valid() && !active && this.slot == slot && this.flash == flash && this.crc == crc
      ensures fresh(writer) && fresh(writer.buf)
    {
      this.crc := crc;
      this.flash := flash;
      this.slot := slot;
      active, base, received, expectBlock := false, 0, 0, 0;
      image, start := [], flash.mem;
      writer := new SectorWriter(flash);
    }

    /** Flash is as it was. */
    ghost predicate Untouched(m: Mem, e: iset<Mem>, n: nat)
      reads flash
    {
      flash.mem == m && flash.exposed == e && flash.failures == n
    }

    method Abort()
      requires writer.flash == flash && writer.Valid()
      modifies this`active, writer
      ensures Valid() && !active
    {
      writer.Abort();
      active := false;
    }

    /** Open a session on a first block: check its header, start the writer, log that the slot is being flashed. */
    method Open(blockNum: u16, data: Block) returns (status: Status)
      requires Valid() && !active
      modifies this, writer, flash
      ensures writer.Valid() && !active
      ensures OnlyWithin(old(flash.mem), flash.mem, META_A, CONTROL)
      ensures flash.exposed <= old(flash.exposed) + SessionCuts(old(flash.mem), slot, CONTROL)
      ensures flash.failures >= old(flash.failures)
      ensures status == BlockAnswer(crc, slot, None, blockNum, data, flash.failures != old(flash.failures))
      ensures !Opens(crc, slot, blockNum, data) ==> Untouched(old(flash.mem), old(flash.exposed), old(flash.failures))
      ensures status == Ok ==>
                && Opens(crc, slot, blockNum, data)
                && base == SlotOffset(slot) == writer.base && received == expectBlock == 0
                && image == [] && start == flash.mem && writer.View().Holds(start, image)
    {
      if blockNum != 0 || |data| < HEADER_SIZE {
        return ErrFirmware;
      }
      if !HeaderValid(crc, data, slot) {
        return ErrFirmware;
      }
      base := SlotOffset(slot);
      received := 0;
      expectBlock := 0;
      writer.Begin(base);
      var logged := MarkFlashing(crc, flash, slot, ParseHeader(data));
      MetaCuts(old(flash.mem), old(flash.mem), slot, CONTROL);
      EmptyHolds(writer.View());
      image, start := [], flash.mem;
      status := if logged then Ok else ErrWrite;
    }

    /** The checks and the write every block goes through. */
    method Accept(blockNum: u16, data: Block) returns (status: Status)
      requires writer.flash == flash && writer.Valid()
      requires base == SlotOffset(slot) == writer.base && received == |image| && writer.View().Holds(start, image)
      modifies this, writer, writer.buf, flash
      ensures writer.Valid() && active == old(active) && base == old(base) && writer.base == base
      ensures Confined(old(flash.mem), flash.mem, slot, CONTROL)
      ensures flash.exposed <= old(flash.exposed) + SessionCuts(old(flash.mem), slot, CONTROL)
      ensures flash.failures >= old(flash.failures)
      ensures status == (if blockNum != old(expectBlock) then ErrWrite
                         else if |old(image)| + |data| > SLOT_SIZE then ErrAddress
                         else if data == [] || flash.failures != old(flash.failures) then ErrWrite else Ok)
      ensures blockNum != old(expectBlock) || |old(image)| + |data| > SLOT_SIZE || data == [] ==>
                Untouched(old(flash.mem), old(flash.exposed), old(flash.failures))
      ensures status == Ok ==>
                && blockNum == old(expectBlock) && expectBlock == old(expectBlock) + 1
                && image == old(image) + data && received == |image| && start == old(start)
                && writer.View().Holds(start, image)
    {
      if blockNum != expectBlock {
        return ErrWrite;
      }
      if received + |data| > SLOT_SIZE {
        return ErrAddress;
      }
      SlotCuts(flash.mem, flash.mem, slot, CONTROL);
      var ok := writer.WriteAt(base + received, data, start, image);
      if !ok {
        return ErrWrite;
      }
      image := image + data;
      received := received + |data|;
      expectBlock := expectBlock + 1;
      status := Ok;
    }

    /** A block of an open session, its first or a later one; a failure ends the session. */
    method Take(blockNum: u16, data: Block) returns (status: Status)
      requires active && writer.flash == flash && writer.Valid()
      requires base == SlotOffset(slot) == writer.base && received == |image| && writer.View().Holds(start, image)
      requires var first := if image == [] then data else image;
               |first| >= HEADER_SIZE && HeaderValid(crc, first, slot)
      modifies this, writer, writer.buf, flash
      ensures Valid() && active == (status == Ok)
      ensures Confined(old(flash.mem), flash.mem, slot, CONTROL)
      ensures flash.exposed <= old(flash.exposed) + SessionCuts(old(flash.mem), slot, CONTROL)
      ensures flash.failures >= old(flash.failures)
      ensures status == (if blockNum != old(expectBlock) then ErrWrite
                         else if |old(image)| + |data| > SLOT_SIZE then ErrAddress
                         else if data == [] || flash.failures != old(flash.failures) then ErrWrite else Ok)
      ensures blockNum != old(expectBlock) || |old(image)| + |data| > SLOT_SIZE || data == [] ==>
                Untouched(old(flash.mem), old(flash.exposed), old(flash.failures))
      ensures status == Ok ==>
                expectBlock == old(expectBlock) + 1 && image == old(image) + data && start == old(start)
    {
      HeaderStays(crc, image, data, slot);
      status := Accept(blockNum, data);
      if status != Ok {
        Abort();
      }
    }

    /** tud_dfu_download_cb: block 0 always opens a new session; any failure ends the session. */
    method Download(blockNum: u16, data: Block) returns (status: Status)
      requires Valid()
      modifies this, writer, writer.buf, flash
      ensures Valid() && active == (status == Ok)
      ensures Confined(old(flash.mem), flash.mem, slot, CONTROL)
      ensures flash.exposed <= old(flash.exposed) + SessionCuts(old(flash.mem), slot, CONTROL)
      ensures flash.failures >= old(flash.failures)
      ensures var open, failed := old(Current()), flash.failures != old(flash.failures);
              status == BlockAnswer(crc, slot, open, blockNum, data, failed)
      ensures BlockAnswer(crc, slot, old(Current()), blockNum, data, false) != Ok ==>
                Untouched(old(flash.mem), old(flash.exposed), old(flash.failures))
      ensures status == Ok ==>
                if old(active) && blockNum != 0
                then blockNum == old(expectBlock) && image == old(image) + data && start == old(start)
                else Opens(crc, slot, blockNum, data) && image == data
                     && OnlyWithin(old(flash.mem), start, META_A, CONTROL)
      ensures status == Ok ==> expectBlock == blockNum + 1
    {
      if active && blockNum == 0 {
        Abort();
      }
      if !active {
        status := Open(blockNum, data);
        if status != Ok {
          Abort();
          return;
        }
        active := true;
      }
      ghost var m1 := flash.mem;
      assert image == [] ==> image + data == data;
      status := Take(blockNum, data);
      ConfinedChain(old(flash.mem), m1, slot, CONTROL);
    }

    /** Read the finished slot back: its header, the length received, the payload's checksum. */
    method VerifySlot() returns (status: Status, h: Header)
      requires Valid() && active
      modifies this`active, writer, flash
      ensures Valid() && !active
      ensures Confined(old(flash.mem), flash.mem, slot, CONTROL)
      ensures flash.exposed <= old(flash.exposed) + SessionCuts(old(flash.mem), slot, CONTROL)
      ensures flash.failures >= old(flash.failures)
      ensures status == ManifestAnswer(crc, old(Current()), flash.failures != old(flash.failures))
      ensures status == Ok ==>
                && flash.mem[base..base + |image|] == image
                && HeaderValid(crc, image, slot) && h == ParseHeader(image)
                && |image| == HEADER_SIZE + h.imageSize
                && SlotValid(crc, flash.mem, slot)
    {
      SlotCuts(flash.mem, flash.mem, slot, CONTROL);
      FinishCompletes(writer.View(), start, image);
      var ok := writer.Finish();
      active := false;
      h := ParseHeader(HeaderBytes(flash.mem, slot));
      if !ok {
        return ErrWrite, h;
      }
      status, h := CheckSlot();
    }

    /** The checks on a slot that has been finished. */
    method CheckSlot() returns (status: Status, h: Header)
      requires HEADER_SIZE <= |image| <= SLOT_SIZE && HeaderValid(crc, image, slot) && received == |image|
      requires flash.mem[SlotOffset(slot)..SlotOffset(slot) + |image|] == image
      ensures status == if !RightLength(image) then ErrFirmware else if !Complete(crc, image) then ErrVerify else Ok
      ensures h == ParseHeader(image) && (status == Ok ==> SlotValid(crc, flash.mem, slot))
    {
      ReadBack(crc, flash.mem, slot, image);
      h := ParseHeader(HeaderBytes(flash.mem, slot));
      if !HeaderValid(crc, HeaderBytes(flash.mem, slot), slot) || received != HEADER_SIZE + h.imageSize {
        return ErrFirmware, h;
      }
      if crc(Payload(flash.mem, slot, h.imageSize)) != h.imageCrc {
        return ErrVerify, h;
      }
      status := Ok;
    }

    /** Commit the verified slot: it becomes pending, and nothing in it changes. */
    method Commit(h: Header) returns (ok: bool)
      requires Valid() && !active && SlotValid(crc, flash.mem, slot)
      requires |image| <= SLOT_SIZE && flash.mem[SlotOffset(slot)..SlotOffset(slot) + |image|] == image
      modifies flash
      ensures Valid() && OnlyWithin(old(flash.mem), flash.mem, META_A, META_END)
      ensures flash.exposed <= old(flash.exposed) + Cuts(old(flash.mem), META_A, META_END)
      ensures SlotValid(crc, flash.mem, slot) && flash.mem[SlotOffset(slot)..SlotOffset(slot) + |image|] == image
      ensures flash.failures >= old(flash.failures) && (ok <==> flash.failures == old(flash.failures))
      ensures var was, c := Cells(crc, old(flash.mem)), ControlOf(crc, old(flash.mem));
              ok ==> Cells(crc, flash.mem) == Saved(was, Boot.Committed(c, slot))
    {
      ok := SlotCommit(crc, flash, slot, h, h.imageCrc);
      CommitKeepsSlot(crc, old(flash.mem), flash.mem, slot);
      CommitKeepsImage(old(flash.mem), flash.mem, slot, |image|);
    }

    /**
     * tud_dfu_manifest_cb. If it reports Ok the slot holds exactly the blocks of this session, valid,
     * and the control log has the slot pending. Wherever power fails, either the control log is as it
     * was or the slot is already valid.
     */
    method Manifest() returns (status: Status)
      requires Valid()
      modifies this`active, writer, flash
      ensures Valid() && !active
      ensures Confined(old(flash.mem), flash.mem, slot, META_END)
      ensures SafelyExposed(crc, old(flash.exposed), flash.exposed, old(flash.mem), slot)
      ensures flash.failures >= old(flash.failures)
      ensures status == ManifestAnswer(crc, old(Current()), flash.failures != old(flash.failures))
      ensures !old(active) ==> Untouched(old(flash.mem), old(flash.exposed), old(flash.failures))
      ensures status == Ok ==> Installed(crc, slot, image, old(flash.mem), flash.mem)
      ensures Cells(crc, flash.mem) == Cells(crc, old(flash.mem)) || SlotValid(crc, flash.mem, slot)
    {
      if !active {
        return ErrNotDone;
      }
      ghost var m0, e0 := flash.mem, flash.exposed;
      var h;
      status, h := VerifySlot();
      ghost var m1, e1 := flash.mem, flash.exposed;
      VerifyCuts(crc, e0, e1, m0, m1, slot);
      if status != Ok {
        return;
      }
      var ok := Commit(h);
      CommitCuts(crc, e0, e1, flash.exposed, m0, m1, slot);
      status := if ok then Ok else ErrWrite;
    }
  }

  lemma CommitKeepsSlot(crc: Checksum, m1: Mem, m: Mem, slot: Slot)
    requires OnlyWithin(m1, m, META_A, META_END)
    ensures SlotValid(crc, m, slot) == SlotValid(crc, m1, slot)
  {
    SlotsUntouched(crc, m1, m, META_END);
    if slot != 0 {
      assert slot == 1;
    }
  }

  lemma CommitKeepsImage(m1: Mem, m: Mem, slot: Slot, n: nat)
    requires OnlyWithin(m1, m, META_A, META_END) && n <= SLOT_SIZE
    ensures m[SlotOffset(slot)..SlotOffset(slot) + n] == m1[SlotOffset(slot)..SlotOffset(slot) + n]
  {
  }

  /** Every image a cut left so far: an earlier one, one with the control log unchanged, or one with the slot valid. */
  ghost predicate SafelyExposed(crc: Checksum, e0: iset<Mem>, e: iset<Mem>, m0: Mem, slot: Slot) {
    && e <= e0 + SessionCuts(m0, slot, META_END)
    && forall m :: m in e ==> m in e0 || Cells(crc, m) == Cells(crc, m0) || SlotValid(crc, m, slot)
  }

  /** The images a cut may leave while the slot is finished and read back ... */
  lemma VerifyCuts(crc: Checksum, e0: iset<Mem>, e: iset<Mem>, m0: Mem, m1: Mem, slot: Slot)
    requires Confined(m0, m1, slot, CONTROL) && e <= e0 + SessionCuts(m0, slot, CONTROL)
    ensures SafelyExposed(crc, e0, e, m0, slot)
    ensures Cells(crc, m1) == Cells(crc, m0) && ControlOf(crc, m1) == ControlOf(crc, m0)
  {
    ConfinedKeepsControl(crc, m0, m1, slot);
    forall m | m in SessionCuts(m0, slot, CONTROL) ensures Cells(crc, m) == Cells(crc, m0) {
      ConfinedKeepsControl(crc, m0, m, slot);
    }
  }

  /** ... and then while it is committed. */
  lemma CommitCuts(crc: Checksum, e0: iset<Mem>, e1: iset<Mem>, e: iset<Mem>, m0: Mem, m1: Mem, slot: Slot)
    requires Confined(m0, m1, slot, CONTROL) && SlotValid(crc, m1, slot)
    requires SafelyExposed(crc, e0, e1, m0, slot) && e <= e1 + Cuts(m1, META_A, META_END)
    ensures SafelyExposed(crc, e0, e, m0, slot)
  {
    forall m | m in Cuts(m1, META_A, META_END) ensures SlotValid(crc, m, slot) && Confined(m0, m, slot, META_END) {
      CommitKeepsSlot(crc, m1, m, slot);
    }
  }

  lemma ConfinedChain(m0: Mem, m1: Mem, slot: byte, meta: nat)
    requires Confined(m0, m1, slot, meta)
    ensures SessionCuts(m1, slot, meta) <= SessionCuts(m0, slot, meta)
  {
  }
}
