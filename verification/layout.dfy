/** Flash partition and slot image header shared by bootloader, application and host. */
module Layout {
  import opened Bytes

  const FLASH_BASE := 0x8000_0000
  const FLASH_SIZE := 0x10_0000
  const SECTOR_SIZE := 0x1000
  const SLOT_SIZE := 0x6_E000
  const HEADER_SIZE := 64
  const HEADER_CRC_LEN := 32
  const ENTRY_OFFSET := 0x40
  const SLOT_COUNT := 2
  const SLOT_NONE := 0xFF

  const IMAGE_SIGNATURE := 0x0A4D_5048
  const IMAGE_MAGIC := 0x4749_4D47
  const HEADER_VERSION := 1

  // Offsets of the partitions from FLASH_BASE.
  const META_A := 0x1_D000
  const META_B := 0x1_E000
  const CONTROL := 0x1_F000
  const SLOT_A := 0x2_0000
  const SLOT_B := 0x8_F000

  type Slot = s: int | 0 <= s < SLOT_COUNT

  /** Any slot number but 0 selects B, as the firmware's lookup does. */
  function SlotOffset(slot: byte): (offset: nat)
    ensures offset % SECTOR_SIZE == 0 && SLOT_A <= offset && offset + SLOT_SIZE <= FLASH_SIZE
  {
    if slot == 0 then SLOT_A else SLOT_B
  }

  function MetaOffset(slot: byte): nat {
    if slot == 0 then META_A else META_B
  }

  /** The partitions one after another: boot loader, image logs, control log, slot A, a gap, slot B, parameters. */
  lemma Partitions()
    ensures MetaOffset(0) == 0x1_D000 && MetaOffset(1) == MetaOffset(0) + SECTOR_SIZE
    ensures CONTROL == MetaOffset(1) + SECTOR_SIZE && SlotOffset(0) == CONTROL + SECTOR_SIZE
    ensures SlotOffset(0) + SLOT_SIZE == 0x8_E000 && SlotOffset(1) == 0x8_E000 + SECTOR_SIZE
    ensures SlotOffset(1) + SLOT_SIZE == 0xF_D000 < FLASH_SIZE
  {
  }

  datatype Header = Header(
    signature: u32, magic: u32, headerVersion: u16, slotId: u16, imageVersion: u32,
    imageSize: u32, imageCrc: u32, loadAddr: u32, entryOffset: u32)

  /** signature, magic, header_version, slot_id, image_version, image_size, image_crc32, load_addr, entry_offset */
  const PREFIX_FORMAT: Format := [4, 4, 2, 2, 4, 4, 4, 4, 4]

  lemma PrefixSize()
    ensures Size(PREFIX_FORMAT) == HEADER_CRC_LEN
    ensures Size([4]) == 4
    ensures Range(2) == 0x1_0000 && Range(4) == 0x1_0000_0000
  {
    var f := PREFIX_FORMAT;
    forall k | 0 <= k < |f| ensures Size(f[k..]) == f[k] + Size(f[k + 1..]) {
      assert f[k..][1..] == f[k + 1..];
    }
    assert f[0..] == f;
  }

  function Fields(h: Header): (v: seq<nat>)
    ensures Fits(PREFIX_FORMAT, v)
  {
    PrefixSize();
    [h.signature, h.magic, h.headerVersion, h.slotId, h.imageVersion,
     h.imageSize, h.imageCrc, h.loadAddr, h.entryOffset]
  }

  /** The first 32 bytes of a header: everything its own checksum covers. */
  function PackPrefix(h: Header): (b: seq<byte>)
    ensures |b| == HEADER_CRC_LEN
  {
    PrefixSize();
    Pack(PREFIX_FORMAT, Fields(h))
  }

  function ParsePrefix(b: seq<byte>): (h: Header)
    requires |b| == HEADER_CRC_LEN
    ensures Fields(h) == Unpack(PREFIX_FORMAT, b)
  {
    PrefixSize();
    var v := Unpack(PREFIX_FORMAT, b);
    FitsPrefix(v);
    NineElements(v);
    Header(v[0], v[1], v[2], v[3], v[4], v[5], v[6], v[7], v[8])
  }

  lemma NineElements(v: seq<nat>)
    requires |v| == 9
    ensures v == [v[0], v[1], v[2], v[3], v[4], v[5], v[6], v[7], v[8]]
  {
  }

  lemma FitsPrefix(v: seq<nat>)
    requires Fits(PREFIX_FORMAT, v)
    ensures |v| == 9
    ensures v[0] < 0x1_0000_0000 && v[1] < 0x1_0000_0000 && v[2] < 0x1_0000 && v[3] < 0x1_0000
    ensures forall i :: 4 <= i < 9 ==> v[i] < 0x1_0000_0000
  {
    PrefixSize();
    assert v[0] < Range(PREFIX_FORMAT[0]) && v[1] < Range(PREFIX_FORMAT[1]);
    assert v[2] < Range(PREFIX_FORMAT[2]) && v[3] < Range(PREFIX_FORMAT[3]);
  }

  function ParseHeader(b: seq<byte>): Header
    requires |b| >= HEADER_SIZE
  {
    ParsePrefix(b[..HEADER_CRC_LEN])
  }

  /** The stored checksum that follows the prefix. */
  function HeaderCrc(b: seq<byte>): nat
    requires |b| >= HEADER_SIZE
  {
    FromLe(b[HEADER_CRC_LEN..HEADER_CRC_LEN + 4])
  }

  /** Header legality as the bootloader sees it; the payload checksum is not looked at. */
  predicate HeaderValid(crc: Checksum, b: seq<byte>, slot: byte)
    requires |b| >= HEADER_SIZE
  {
    var h := ParseHeader(b);
    && slot < SLOT_COUNT
    && h.signature == IMAGE_SIGNATURE
    && h.magic == IMAGE_MAGIC
    && h.headerVersion == HEADER_VERSION
    && h.slotId == slot
    && h.entryOffset == ENTRY_OFFSET
    && h.loadAddr == FLASH_BASE + SlotOffset(slot)
    && 0 < h.imageSize <= SLOT_SIZE - HEADER_SIZE
    && crc(b[..HEADER_CRC_LEN]) == HeaderCrc(b)
  }

  lemma ParsePack(h: Header)
    ensures ParsePrefix(PackPrefix(h)) == h
  {
    UnpackPack(PREFIX_FORMAT, Fields(h));
    assert Fields(ParsePrefix(PackPrefix(h))) == Fields(h);
  }

  lemma PackParse(b: seq<byte>)
    requires |b| == HEADER_CRC_LEN
    ensures PackPrefix(ParsePrefix(b)) == b
  {
    PrefixSize();
    PackUnpack(PREFIX_FORMAT, b);
  }
}
