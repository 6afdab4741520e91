/** A download reopened over the only valid slot (bootloader/src/dfu.c): what it leaves bootable, block by block. */
module Reopening {
  import opened Bytes
  import opened Layout
  import opened Options
  import opened Nor
  import opened Writer
  import opened Boot
  import opened Dfu
  import opened DfuRuns

  /** A slot under an unfinished image: the whole sectors of it so far, and behind them what was there before. */
  function Mixed(start: Mem, target: Slot, image: seq<byte>): (b: seq<byte>)
    requires |image| <= SLOT_SIZE
    ensures |b| == SLOT_SIZE
  {
    var done, base := SectorOf(|image|), SlotOffset(target);
    image[..done] + start[base + done..base + SLOT_SIZE]
  }

  /** From the first whole sector on the header is the new one, and the mixture must have the checksum it names. */
  ghost predicate StillBoots(crc: Checksum, start: Mem, target: Slot, image: seq<byte>)
    requires HEADER_SIZE <= |image| <= SLOT_SIZE && HeaderValid(crc, image, target)
  {
    if |image| < SECTOR_SIZE then SlotValid(crc, start, target)
    else
      var h := ParseHeader(image);
      crc(Mixed(start, target, image)[HEADER_SIZE..HEADER_SIZE + h.imageSize]) == h.imageCrc
  }

  /** The whole slot of a flash that an unfinished image is being written to. */
  lemma SlotIsMixed(start: Mem, m: Mem, target: Slot, image: seq<byte>)
    requires |image| <= SLOT_SIZE && m == Write(start, SlotOffset(target), image[..SectorOf(|image|)])
    ensures m[SlotOffset(target)..SlotOffset(target) + SLOT_SIZE] == Mixed(start, target, image)
    ensures |image| < SECTOR_SIZE ==> m == start
  {
    MixedSlot(start, m, SlotOffset(target), image[..SectorOf(|image|)]);
  }

  lemma MixedSlot(start: Mem, m: Mem, base: nat, part: seq<byte>)
    requires base + SLOT_SIZE <= FLASH_SIZE && |part| <= SLOT_SIZE && m == Write(start, base, part)
    ensures m[base..base + SLOT_SIZE] == part + start[base + |part|..base + SLOT_SIZE]
    ensures part == [] ==> m == start
  {
    WriteElsewhere(start, base, part, base + |part|, base + SLOT_SIZE);
    assert m[base..base + SLOT_SIZE] == m[base..base + |part|] + m[base + |part|..base + SLOT_SIZE];
  }

  /** A slot whose header came with the image is valid exactly if the payload in it has the checksum named there. */
  lemma NewHeader(crc: Checksum, m: Mem, target: Slot, image: seq<byte>, done: nat)
    requires HEADER_SIZE <= done <= |image| <= SLOT_SIZE && HeaderValid(crc, image, target)
    requires m[SlotOffset(target)..SlotOffset(target) + done] == image[..done]
    ensures var slot, h := m[SlotOffset(target)..SlotOffset(target) + SLOT_SIZE], ParseHeader(image);
            SlotValid(crc, m, target) <==> crc(slot[HEADER_SIZE..HEADER_SIZE + h.imageSize]) == h.imageCrc
  {
    HeaderOfPrefix(crc, image, done, target);
    InstalledIsValid(crc, m, target, image[..done]);
    var lo := SlotOffset(target);
    SliceOfSlice(m, lo, lo + SLOT_SIZE, HEADER_SIZE, HEADER_SIZE + ParseHeader(image).imageSize);
  }

  /** An unfinished image in flash: what an unforced decision can still start. */
  lemma PartialImageBoots(crc: Checksum, start: Mem, m: Mem, target: Slot, image: seq<byte>)
    requires HEADER_SIZE <= |image| <= SLOT_SIZE && HeaderValid(crc, image, target)
    requires m == Write(start, SlotOffset(target), image[..SectorOf(|image|)])
    ensures SomeSlotValid(crc, m) <==> SlotValid(crc, start, Other(target)) || StillBoots(crc, start, target, image)
  {
    SlotIsMixed(start, m, target, image);
    EitherSlot(crc, m, target);
    OtherSlotKept(crc, start, m, target);
    if |image| >= SECTOR_SIZE {
      NewHeader(crc, m, target, image, SectorOf(|image|));
    }
  }

  lemma OtherSlotKept(crc: Checksum, m: Mem, m': Mem, target: Slot)
    requires OnlyWithin(m, m', SlotOffset(target), SlotOffset(target) + SLOT_SIZE)
    ensures SlotValid(crc, m', Other(target)) == SlotValid(crc, m, Other(target))
  {
    ConfinedKeepsOther(crc, m, m', target);
  }

  /**
   * A writer that holds an image, at any byte of it: some slot is valid exactly if the other one was, or the bytes now
   * in the target, part new and part old, happen to have the new checksum - or nothing was flushed yet.
   */
  lemma ReopenedDownloadBoots(crc: Checksum, s: State, start: Mem, image: seq<byte>, target: Slot)
    requires s.Valid() && s.base == SlotOffset(target) && s.Holds(start, image)
    requires |image| >= HEADER_SIZE && HeaderValid(crc, image, target)
    ensures |image| <= SLOT_SIZE
    ensures SomeSlotValid(crc, s.mem)
            <==> SlotValid(crc, start, Other(target)) || StillBoots(crc, start, target, image)
  {
    HeldFlash(s, start, image);
    PartialImageBoots(crc, start, s.mem, target, image);
  }

  /** Marking the slot as being flashed does not matter to the slots. */
  lemma MarkedStillBoots(crc: Checksum, m: Mem, start: Mem, target: Slot, image: seq<byte>)
    requires OnlyWithin(m, start, META_A, CONTROL)
    requires HEADER_SIZE <= |image| <= SLOT_SIZE && HeaderValid(crc, image, target)
    ensures StillBoots(crc, start, target, image) == StillBoots(crc, m, target, image)
    ensures SlotValid(crc, start, Other(target)) == SlotValid(crc, m, Other(target))
  {
    SlotsUntouched(crc, m, start, CONTROL);
    assert Mixed(start, target, image) == Mixed(m, target, image);
    assert target == 0 || target == 1;
  }

  /**
   * The same of every run: requests k up to j are the blocks of one session, all answered Ok. Then the device still
   * boots exactly if it would with those blocks over the flash found at request k.
   */
  lemma ReopenedRunBoots(crc: Checksum, target: Slot, events: seq<UsbEvent>, statuses: seq<Status>, trace: seq<Moment>,
                         k: nat, j: nat)
    requires Trace(crc, target, events, statuses, trace) && j <= |events|
    requires OneSession(crc, target, events, statuses, k, j)
    ensures var m, image := trace[k].mem, Blocks(events[k..j]);
            && HEADER_SIZE <= |image| <= SLOT_SIZE && HeaderValid(crc, image, target)
            && (SomeSlotValid(crc, trace[j].mem)
                <==> SlotValid(crc, m, Other(target)) || StillBoots(crc, m, target, image))
  {
    SessionHolds(crc, target, events, statuses, trace, k, j);
    assert ServedAt(crc, target, events, statuses, trace, j - 1);
    var p := trace[j].session.value;
    PartialImageBoots(crc, p.start, trace[j].mem, target, p.image);
    MarkedStillBoots(crc, trace[k].mem, p.start, target, p.image);
  }

  // Runs that lose the only image.

  /** What the host sends in one request. */
  const BLOCK_SIZE := 1024

  /** The first n blocks of an image. */
  function Download(image: seq<byte>, n: nat): (events: seq<UsbEvent>)
    requires n * BLOCK_SIZE <= |image| && n <= 0x1_0000
    ensures |events| == n
    ensures forall i: nat :: i < n ==> events[i] == DnLoad(i, image[i * BLOCK_SIZE..(i + 1) * BLOCK_SIZE])
  {
    seq(n, i requires 0 <= i < n => DnLoad(i, image[i * BLOCK_SIZE..(i + 1) * BLOCK_SIZE]))
  }

  lemma {:induction false} DownloadBlocks(image: seq<byte>, n: nat, j: nat)
    requires n * BLOCK_SIZE <= |image| && n <= 0x1_0000 && j <= n
    ensures Blocks(Download(image, n)[0..j]) == image[..j * BLOCK_SIZE]
  {
    if j > 0 {
      DownloadBlocks(image, n, j - 1);
      BlocksGrow(Download(image, n), 0, j - 1);
      assert image[..j * BLOCK_SIZE] == image[..(j - 1) * BLOCK_SIZE] + image[(j - 1) * BLOCK_SIZE..j * BLOCK_SIZE];
    }
  }

  /** A download whose blocks are all answered Ok is one session. */
  lemma DownloadIsSession(crc: Checksum, target: Slot, image: seq<byte>, n: nat, statuses: seq<Status>, j: nat)
    requires n * BLOCK_SIZE <= |image| && n <= 0x1_0000 && |statuses| == n && 0 < j <= n
    requires HeaderValid(crc, image, target) && forall i :: 0 <= i < j ==> statuses[i] == Ok
    ensures OneSession(crc, target, Download(image, n), statuses, 0, j)
    ensures Blocks(Download(image, n)[0..j]) == image[..j * BLOCK_SIZE]
  {
    HeaderOfPrefix(crc, image, BLOCK_SIZE, target);
    assert image[0..BLOCK_SIZE] == image[..BLOCK_SIZE];
    DownloadBlocks(image, n, j);
  }

  /** The only image, and a first sector with a valid header under which what is left of it has the wrong checksum. */
  ghost predicate Doomed(crc: Checksum, m: Mem, target: Slot, image: seq<byte>) {
    && SlotValid(crc, m, target) && !SlotValid(crc, m, Other(target))
    && |image| == SECTOR_SIZE && HeaderValid(crc, image, target) && !StillBoots(crc, m, target, image)
  }

  lemma DoomedAtTheLast(crc: Checksum, m: Mem, target: Slot, image: seq<byte>)
    requires Doomed(crc, m, target, image)
    ensures SomeSlotValid(crc, m) && image[..4 * BLOCK_SIZE] == image
    ensures var part := image[..3 * BLOCK_SIZE]; HeaderValid(crc, part, target) && StillBoots(crc, m, target, part)
  {
    EitherSlot(crc, m, target);
    HeaderOfPrefix(crc, image, 3 * BLOCK_SIZE, target);
  }

  /**
   * Every such run loses the only image with the fourth block: once the first three are answered Ok the device still
   * boots, once the fourth is it does not.
   */
  lemma ReopenedDownloadLosesAll(crc: Checksum, target: Slot, image: seq<byte>, statuses: seq<Status>,
                                 trace: seq<Moment>)
    requires |image| == SECTOR_SIZE && Trace(crc, target, Download(image, 4), statuses, trace)
    requires Doomed(crc, trace[0].mem, target, image)
    ensures SomeSlotValid(crc, trace[0].mem)
    ensures (forall i :: 0 <= i < 3 ==> statuses[i] == Ok) ==> SomeSlotValid(crc, trace[3].mem)
    ensures (forall i :: 0 <= i < 4 ==> statuses[i] == Ok) ==> !SomeSlotValid(crc, trace[4].mem)
  {
    DoomedAtTheLast(crc, trace[0].mem, target, image);
    if forall i :: 0 <= i < 3 ==> statuses[i] == Ok {
      DownloadIsSession(crc, target, image, 4, statuses, 3);
      ReopenedRunBoots(crc, target, Download(image, 4), statuses, trace, 0, 3);
    }
    if forall i :: 0 <= i < 4 ==> statuses[i] == Ok {
      DownloadIsSession(crc, target, image, 4, statuses, 4);
      ReopenedRunBoots(crc, target, Download(image, 4), statuses, trace, 0, 4);
    }
  }

  const CRC: Checksum := b => if |b| == HEADER_CRC_LEN then 7 else 0

  /** An image for slot 0 of n zero bytes, with a given payload checksum and 7 for the header's. */
  function ZeroImage(imageCrc: u32, n: nat): (b: seq<byte>)
    requires 0 < n <= SLOT_SIZE - HEADER_SIZE
    ensures |b| == HEADER_SIZE + n
  {
    PackPrefix(ZeroHeader(imageCrc, n)) + Le(4, 7) + seq(28 + n, _ => 0)
  }

  function ZeroHeader(imageCrc: u32, n: nat): Header
    requires n <= SLOT_SIZE
  {
    Header(IMAGE_SIGNATURE, IMAGE_MAGIC, HEADER_VERSION, 0, 0, n, imageCrc, FLASH_BASE + SLOT_A, ENTRY_OFFSET)
  }

  lemma ZeroImageHeader(crc: Checksum, imageCrc: u32, n: nat)
    requires 0 < n <= SLOT_SIZE - HEADER_SIZE && crc(PackPrefix(ZeroHeader(imageCrc, n))) == 7
    ensures var b := ZeroImage(imageCrc, n);
            ParseHeader(b) == ZeroHeader(imageCrc, n) && HeaderValid(crc, b, 0)
  {
    ZeroImageParts(imageCrc, n);
    ParsePack(ZeroHeader(imageCrc, n));
  }

  lemma ZeroImageParts(imageCrc: u32, n: nat)
    requires 0 < n <= SLOT_SIZE - HEADER_SIZE
    ensures var b := ZeroImage(imageCrc, n);
            b[..HEADER_CRC_LEN] == PackPrefix(ZeroHeader(imageCrc, n)) && HeaderCrc(b) == 7
  {
    var b := ZeroImage(imageCrc, n);
    assert b[HEADER_CRC_LEN..HEADER_CRC_LEN + 4] == Le(4, 7);
    PrefixSize();
    FromLeLe(4, 7);
  }

  lemma OtherCrcByte(crc: Checksum, b: seq<byte>)
    requires |b| == HEADER_SIZE && b[HEADER_CRC_LEN] == 0 && crc(b[..HEADER_CRC_LEN]) == 7
    ensures !HeaderValid(crc, b, 1)
  {
    var f := b[HEADER_CRC_LEN..HEADER_CRC_LEN + 4];
    assert Le(4, 7)[0] == 7;
    assert f[0] == 0;
    LeFromLe(f);
  }

  function ZeroFlash(): Mem { seq(FLASH_SIZE, _ => 0) }

  /** A device with an intact image in slot 0 and nothing in slot 1 ... */
  function OneImage(): Mem { Write(ZeroFlash(), SLOT_A, ZeroImage(0, 1)) }

  /** ... and one sector of an image with a valid header and a payload that does not match it. */
  function Damaged(): (b: seq<byte>)
    ensures |b| == SECTOR_SIZE
  {
    ZeroImage(1, SECTOR_SIZE - HEADER_SIZE)
  }

  lemma OtherSlotIsEmpty(m: Mem, image: seq<byte>)
    requires |image| <= SLOT_SIZE && m == Write(ZeroFlash(), SLOT_A, image)
    ensures HeaderBytes(m, 1)[HEADER_CRC_LEN] == 0
  {
    WriteByte(ZeroFlash(), SLOT_A, image, SLOT_B + HEADER_CRC_LEN);
    assert m[SLOT_B + HEADER_CRC_LEN] == 0;
    SliceByte(m, SLOT_B, HEADER_SIZE, HEADER_CRC_LEN);
  }

  lemma SliceByte(m: Mem, lo: nat, n: nat, i: nat)
    requires lo + n <= FLASH_SIZE && i < n
    ensures m[lo..lo + n][i] == m[lo + i]
  {
  }

  lemma OneImageIsInstalled()
    ensures SlotValid(CRC, OneImage(), 0) && !SlotValid(CRC, OneImage(), 1)
  {
    var m, image := OneImage(), ZeroImage(0, 1);
    ZeroImageHeader(CRC, 0, 1);
    InstalledIsValid(CRC, m, 0, image);
    OtherSlotIsEmpty(m, image);
    OtherCrcByte(CRC, HeaderBytes(m, 1));
  }

  lemma DamagedIsDoomed()
    ensures Doomed(CRC, OneImage(), 0, Damaged())
  {
    OneImageIsInstalled();
    ZeroImageHeader(CRC, 1, SECTOR_SIZE - HEADER_SIZE);
  }

  /** Such a run on that device. */
  method LoseOnlyImage(flash: Flash) returns (statuses: seq<Status>)
    requires flash.Valid() && flash.mem == OneImage()
    modifies flash
    ensures |statuses| == 4 && old(SomeSlotValid(CRC, flash.mem))
    ensures (forall i :: 0 <= i < 4 ==> statuses[i] == Ok) ==> !SomeSlotValid(CRC, flash.mem)
  {
    var image := Damaged();
    DamagedIsDoomed();
    ghost var trace;
    statuses, trace := DfuRun(CRC, flash, 0, Download(image, 4));
    ReopenedDownloadLosesAll(CRC, 0, image, statuses, trace);
  }

  // The same blocks through the writer, none of its flash operations failing.

  function Begun(m: Mem, target: Slot): (s: State)
    ensures s.Valid() && s.Holds(m, []) && s.base == SlotOffset(target)
  {
    var s := State(m, seq(SECTOR_SIZE, _ => 0), SlotOffset(target), 0, 0, false);
    EmptyHolds(s);
    s
  }

  /** One more block of an image, behind the blocks held already. */
  function Block(s: State, m: Mem, image: seq<byte>, done: nat, end: nat): (t: State)
    requires done % BLOCK_SIZE == 0 && end == done + BLOCK_SIZE <= |image| <= SLOT_SIZE
    requires s.Valid() && s.Holds(m, image[..done])
    ensures t.Valid() && t.base == s.base && t.Holds(m, image[..end])
  {
    var chunk := image[done..end];
    BlockFits(s.base, done);
    ChunkExtends(s, m, image[..done], chunk);
    assert image[..done] + chunk == image[..end];
    s.Chunk(s.base + done, chunk)
  }

  /** The writer after three blocks of a sector ... */
  function ThreeBlocks(m: Mem, target: Slot, image: seq<byte>): (s: State)
    requires |image| == SECTOR_SIZE
    ensures s.Valid() && s.base == SlotOffset(target) && s.Holds(m, image[..3 * BLOCK_SIZE])
  {
    var one := Block(Begun(m, target), m, image, 0, BLOCK_SIZE);
    var two := Block(one, m, image, BLOCK_SIZE, 2 * BLOCK_SIZE);
    Block(two, m, image, 2 * BLOCK_SIZE, 3 * BLOCK_SIZE)
  }

  /** ... and after the fourth, which completes it. */
  function FourBlocks(m: Mem, target: Slot, image: seq<byte>): (s: State)
    requires |image| == SECTOR_SIZE
    ensures s.Valid() && s.base == SlotOffset(target) && s.Holds(m, image)
  {
    assert image[..SECTOR_SIZE] == image;
    Block(ThreeBlocks(m, target, image), m, image, 3 * BLOCK_SIZE, SECTOR_SIZE)
  }

  lemma BlockFits(base: nat, done: nat)
    requires base % SECTOR_SIZE == 0 && done % BLOCK_SIZE == 0
    ensures base + done - SectorOf(base + done) + BLOCK_SIZE <= SECTOR_SIZE
  {
  }

  /** With no flash operation failing, such an image is lost between its third and its fourth block. */
  lemma WriterLosesAll(crc: Checksum, m: Mem, start: Mem, target: Slot, image: seq<byte>)
    requires Doomed(crc, m, target, image) && OnlyWithin(m, start, META_A, CONTROL)
    ensures SomeSlotValid(crc, ThreeBlocks(start, target, image).mem)
    ensures !SomeSlotValid(crc, FourBlocks(start, target, image).mem)
  {
    DoomedAtTheLast(crc, m, target, image);
    MarkedStillBoots(crc, m, start, target, image);
    MarkedStillBoots(crc, m, start, target, image[..3 * BLOCK_SIZE]);
    ReopenedDownloadBoots(crc, ThreeBlocks(start, target, image), start, image[..3 * BLOCK_SIZE], target);
    ReopenedDownloadBoots(crc, FourBlocks(start, target, image), start, image, target);
  }

  /** There are such images: a device can be lost to a download that is reopened. */
  lemma ReopenedDownloadCanLoseAll()
    ensures exists crc: Checksum, m: Mem, image: seq<byte> ::
              && Doomed(crc, m, 0, image) && SomeSlotValid(crc, ThreeBlocks(m, 0, image).mem)
              && !SomeSlotValid(crc, FourBlocks(m, 0, image).mem)
  {
    DamagedIsDoomed();
    WriterLosesAll(CRC, OneImage(), OneImage(), 0, Damaged());
  }
}
