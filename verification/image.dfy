/** Host-side printer and parser of slot images (scripts/gen_image_header.py). */
module Image {
  import opened Bytes
  import opened Layout
  import opened Options

  datatype ImageError =
    | InvalidSlot | InputTooSmall | PlaceholderNotZero | EmptyPayload | PayloadTooLarge
    | BadSignature | BadMagic | BadHeaderVersion | BadSlotId | BadLoadAddr | BadEntryOffset
    | HeaderCrcMismatch | BadImageSize | LengthMismatch | SlotMismatch | PayloadCrcMismatch

  datatype Result<+T> = Ok(value: T) | Err(error: ImageError)

  datatype Info = Info(slot: Slot, version: u32, imageSize: u32, imageCrc: u32, loadAddr: u32, entry: nat)

  function Zeros(n: nat): seq<byte> { seq(n, _ => 0) }

  function BuiltHeader(crc: Checksum, payload: seq<byte>, slot: Slot, version: int): Header
    requires |payload| <= SLOT_SIZE
  {
    Header(IMAGE_SIGNATURE, IMAGE_MAGIC, HEADER_VERSION, slot, version % 0x1_0000_0000,
           |payload|, crc(payload), FLASH_BASE + SlotOffset(slot), ENTRY_OFFSET)
  }

  function BuildImage(crc: Checksum, bin: seq<byte>, slot: int, version: int): Result<seq<byte>> {
    if !(0 <= slot < SLOT_COUNT) then Err(InvalidSlot)
    else if |bin| < HEADER_SIZE then Err(InputTooSmall)
    else if exists i :: 0 <= i < HEADER_SIZE && bin[i] != 0 then Err(PlaceholderNotZero)
    else
      var payload := bin[HEADER_SIZE..];
      if payload == [] then Err(EmptyPayload)
      else if |payload| > SLOT_SIZE - HEADER_SIZE then Err(PayloadTooLarge)
      else
        var prefix := PackPrefix(BuiltHeader(crc, payload, slot, version));
        Ok(prefix + Le(4, crc(prefix)) + Zeros(28) + payload)
  }

  function ParseImage(crc: Checksum, data: seq<byte>): Result<Info> {
    if |data| < HEADER_SIZE then Err(InputTooSmall)
    else
      var h := ParseHeader(data);
      if h.signature != IMAGE_SIGNATURE then Err(BadSignature)
      else if h.magic != IMAGE_MAGIC then Err(BadMagic)
      else if h.headerVersion != HEADER_VERSION then Err(BadHeaderVersion)
      else if h.slotId >= SLOT_COUNT then Err(BadSlotId)
      else if h.loadAddr != FLASH_BASE + SlotOffset(h.slotId) then Err(BadLoadAddr)
      else if h.entryOffset != ENTRY_OFFSET then Err(BadEntryOffset)
      else if crc(data[..HEADER_CRC_LEN]) != HeaderCrc(data) then Err(HeaderCrcMismatch)
      else if h.imageSize == 0 || h.imageSize > SLOT_SIZE - HEADER_SIZE then Err(BadImageSize)
      else if |data| != HEADER_SIZE + h.imageSize then Err(LengthMismatch)
      else Ok(Info(h.slotId, h.imageVersion, h.imageSize, h.imageCrc, h.loadAddr, h.loadAddr + h.entryOffset))
  }

  function VerifyImage(crc: Checksum, data: seq<byte>, expected: Option<int>): Result<Info> {
    var parsed := ParseImage(crc, data);
    if parsed.Err? then parsed
    else if expected.Some? && parsed.value.slot != expected.value then Err(SlotMismatch)
    else if crc(data[HEADER_SIZE..]) != parsed.value.imageCrc then Err(PayloadCrcMismatch)
    else parsed
  }

  /** Which inputs the printer accepts. */
  lemma BuildAccepts(crc: Checksum, bin: seq<byte>, slot: int, version: int)
    ensures BuildImage(crc, bin, slot, version).Ok? <==>
            0 <= slot < SLOT_COUNT && HEADER_SIZE < |bin| <= SLOT_SIZE && bin[..HEADER_SIZE] == Zeros(HEADER_SIZE)
  {
    if |bin| >= HEADER_SIZE {
      if forall i :: 0 <= i < HEADER_SIZE ==> bin[i] == 0 {
        assert bin[..HEADER_SIZE] == Zeros(HEADER_SIZE);
      } else {
        var i :| 0 <= i < HEADER_SIZE && bin[i] != 0;
        assert bin[..HEADER_SIZE][i] != Zeros(HEADER_SIZE)[i];
      }
    }
  }

  lemma ImageParts(prefix: seq<byte>, headerCrc: u32, payload: seq<byte>, img: seq<byte>)
    requires |prefix| == HEADER_CRC_LEN && img == prefix + Le(4, headerCrc) + Zeros(28) + payload
    ensures |img| == HEADER_SIZE + |payload| && img[..HEADER_CRC_LEN] == prefix
    ensures HeaderCrc(img) == headerCrc && img[HEADER_SIZE..] == payload
  {
    assert img[HEADER_CRC_LEN..HEADER_CRC_LEN + 4] == Le(4, headerCrc);
    PrefixSize();
    FromLeLe(4, headerCrc);
  }

  /** Every printed image is accepted, for its own slot only, and reads back as what was printed. */
  lemma VerifyBuilt(crc: Checksum, bin: seq<byte>, slot: int, version: int, expected: Option<int>)
    requires BuildImage(crc, bin, slot, version).Ok?
    ensures VerifyImage(crc, BuildImage(crc, bin, slot, version).value, expected) ==
            if expected.None? || expected.value == slot
            then Ok(Info(slot, version % 0x1_0000_0000, |bin| - HEADER_SIZE, crc(bin[HEADER_SIZE..]),
                         FLASH_BASE + SlotOffset(slot), FLASH_BASE + SlotOffset(slot) + ENTRY_OFFSET))
            else Err(SlotMismatch)
  {
    var payload := bin[HEADER_SIZE..];
    var h := BuiltHeader(crc, payload, slot, version);
    var prefix := PackPrefix(h);
    var img := BuildImage(crc, bin, slot, version).value;
    ImageParts(prefix, crc(prefix), payload, img);
    ParsePack(h);
  }

  /** Whatever is accepted is the print of its own payload, up to the 28 reserved header bytes. */
  lemma BuildVerified(crc: Checksum, data: seq<byte>, expected: Option<int>)
    requires VerifyImage(crc, data, expected).Ok?
    ensures var info := VerifyImage(crc, data, expected).value;
            BuildImage(crc, Zeros(HEADER_SIZE) + data[HEADER_SIZE..], info.slot, info.version)
            == Ok(data[..36] + Zeros(28) + data[HEADER_SIZE..])
  {
    var info := VerifyImage(crc, data, expected).value;
    var payload := data[HEADER_SIZE..];
    var bin := Zeros(HEADER_SIZE) + payload;
    assert bin[..HEADER_SIZE] == Zeros(HEADER_SIZE) && bin[HEADER_SIZE..] == payload;
    BuildAccepts(crc, bin, info.slot, info.version);
    PackParse(data[..HEADER_CRC_LEN]);
    LeFromLe(data[HEADER_CRC_LEN..HEADER_CRC_LEN + 4]);
    assert BuiltHeader(crc, payload, info.slot, info.version) == ParseHeader(data);
    assert data[..36] == data[..HEADER_CRC_LEN] + data[HEADER_CRC_LEN..36];
  }

  /** Host and bootloader accept the same bytes. */
  lemma HostAgreesWithFirmware(crc: Checksum, data: seq<byte>, slot: Slot)
    ensures VerifyImage(crc, data, Some(slot)).Ok? <==>
            && |data| >= HEADER_SIZE
            && HeaderValid(crc, data, slot)
            && |data| == HEADER_SIZE + ParseHeader(data).imageSize
            && crc(data[HEADER_SIZE..]) == ParseHeader(data).imageCrc
  {
  }
}
