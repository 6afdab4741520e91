/** Metadata logs in flash (App/Platform/Src/boot_meta.c): append, load, save, and the application's confirmation. */
module BootMeta {
  import opened Bytes
  import opened Layout
  import opened Nor
  import opened ControlLog
  import opened Options

  /** Offset of the first erased record at or after off, or a value past the last one. */
  function NextErased(m: Mem, sector: nat, size: nat, off: nat): (r: nat)
    requires size > 0 && sector + SECTOR_SIZE <= FLASH_SIZE
    ensures r + size <= SECTOR_SIZE ==> off <= r && m[sector + r..sector + r + size] == Nor.Blank(size)
    decreases SECTOR_SIZE - off
  {
    if off + size > SECTOR_SIZE || m[sector + off..sector + off + size] == Nor.Blank(size) then off
    else NextErased(m, sector, size, off + size)
  }

  /** The flash after appending a record to a log sector, erasing it first when there is no room. */
  function Appended(m: Mem, sector: nat, rec: seq<byte>): Mem
    requires 0 < |rec| <= SECTOR_SIZE && sector + SECTOR_SIZE <= FLASH_SIZE
  {
    var off := NextErased(m, sector, |rec|, 0);
    if off + |rec| <= SECTOR_SIZE then Write(m, sector + off, rec) else Write(Erased(m, sector), sector, rec)
  }

  predicate RecordSize(n: nat) { n == 16 || n == 32 }

  lemma {:induction false} NextErasedIsWord(m: Mem, sector: nat, size: nat, off: nat)
    requires RecordSize(size) && sector + SECTOR_SIZE <= FLASH_SIZE && off % 4 == 0
    ensures NextErased(m, sector, size, off) % 4 == 0
    decreases SECTOR_SIZE - off
  {
    if off + size <= SECTOR_SIZE && m[sector + off..sector + off + size] != Nor.Blank(size) {
      NextErasedIsWord(m, sector, size, off + size);
    }
  }

  /** Scan a sector for its first erased record. */
  method FindErased(flash: Flash, sector: nat, size: nat) returns (found: bool, off: nat)
    requires size > 0 && sector + SECTOR_SIZE <= FLASH_SIZE
    ensures found <==> NextErased(flash.mem, sector, size, 0) + size <= SECTOR_SIZE
    ensures found ==> off == NextErased(flash.mem, sector, size, 0)
  {
    off := 0;
    while off + size <= SECTOR_SIZE
      invariant NextErased(flash.mem, sector, size, 0) == NextErased(flash.mem, sector, size, off)
      decreases SECTOR_SIZE - off
    {
      if flash.mem[sector + off..sector + off + size] == Nor.Blank(size) {
        return true, off;
      }
      off := off + size;
    }
    found := false;
  }

  /** The flash with room for a record at off, and where that is. */
  ghost predicate RoomMade(m: Mem, m': Mem, sector: nat, size: nat, off: nat)
    requires size > 0 && sector + SECTOR_SIZE <= FLASH_SIZE
  {
    var k := NextErased(m, sector, size, 0);
    if k + size <= SECTOR_SIZE then off == k && m' == m else off == 0 && m' == Erased(m, sector)
  }

  method LogNextSlot(flash: Flash, sector: nat, size: nat) returns (ok: bool, off: nat)
    requires flash.Valid() && RecordSize(size) && sector + SECTOR_SIZE <= FLASH_SIZE
    modifies flash
    ensures flash.Valid() && OnlyWithin(old(flash.mem), flash.mem, sector, sector + SECTOR_SIZE)
    ensures flash.exposed <= old(flash.exposed) + Cuts(old(flash.mem), sector, sector + SECTOR_SIZE)
    ensures ok ==> off + size <= SECTOR_SIZE && off % 4 == 0 && RoomMade(old(flash.mem), flash.mem, sector, size, off)
    ensures flash.failures >= old(flash.failures) && (ok ==> flash.failures == old(flash.failures))
    ensures sector % SECTOR_SIZE == 0 && flash.failures == old(flash.failures) ==> ok
  {
    NextErasedIsWord(flash.mem, sector, size, 0);
    ok, off := FindErased(flash, sector, size);
    if ok {
      return;
    }
    ok := flash.Erase(sector);
    off := 0;
  }

  lemma RecordWords(n: nat)
    requires RecordSize(n)
    ensures WordBytes(n) == n
  {
  }

  lemma WordInSector(sector: nat, off: nat)
    requires off % 4 == 0
    ensures sector % SECTOR_SIZE == 0 ==> (sector + off) % 4 == 0
  {
    if sector % SECTOR_SIZE == 0 {
      var k := sector / SECTOR_SIZE;
      assert sector == 4 * (1024 * k);
    }
  }

  lemma BlankPrefix(m: Mem, sector: nat, n: nat)
    requires sector + SECTOR_SIZE <= FLASH_SIZE && n <= SECTOR_SIZE
    ensures Erased(m, sector)[sector..sector + n] == Nor.Blank(n)
  {
    var e := Erased(m, sector);
    assert e[sector..sector + SECTOR_SIZE] == Nor.Blank(SECTOR_SIZE);
    assert e[sector..sector + n] == Nor.Blank(SECTOR_SIZE)[..n];
  }

  /** Write a record into the room made for it and read it back. */
  method WriteRecord(flash: Flash, sector: nat, rec: seq<byte>, off: nat, ghost m: Mem) returns (ok: bool)
    requires flash.Valid() && RecordSize(|rec|) && sector + SECTOR_SIZE <= FLASH_SIZE
    requires off + |rec| <= SECTOR_SIZE && off % 4 == 0 && RoomMade(m, flash.mem, sector, |rec|, off)
    modifies flash
    ensures flash.Valid() && OnlyWithin(old(flash.mem), flash.mem, sector, sector + SECTOR_SIZE)
    ensures flash.exposed <= old(flash.exposed) + Cuts(old(flash.mem), sector, sector + SECTOR_SIZE)
    ensures ok ==> flash.mem == Appended(m, sector, rec)
    ensures flash.failures >= old(flash.failures) && (ok ==> flash.failures == old(flash.failures))
    ensures sector % SECTOR_SIZE == 0 && flash.failures == old(flash.failures) ==> ok
  {
    RecordWords(|rec|);
    WordInSector(sector, off);
    RoomIsBlank(m, flash.mem, sector, rec, off);
    ReadsBack(m, flash.mem, sector, rec, off);
    CutsWithin(flash.mem, flash.mem, sector + off, sector + off + |rec|, sector, sector + SECTOR_SIZE);
    ok := flash.Program(sector + off, rec);
    if ok && flash.mem[sector + off..sector + off + |rec|] != rec {
      ok := false;
    }
  }

  /** Append one record and read it back. */
  method LogAppend(flash: Flash, sector: nat, rec: seq<byte>) returns (ok: bool)
    requires flash.Valid() && RecordSize(|rec|) && sector + SECTOR_SIZE <= FLASH_SIZE
    modifies flash
    ensures flash.Valid() && OnlyWithin(old(flash.mem), flash.mem, sector, sector + SECTOR_SIZE)
    ensures flash.exposed <= old(flash.exposed) + Cuts(old(flash.mem), sector, sector + SECTOR_SIZE)
    ensures ok ==> flash.mem == Appended(old(flash.mem), sector, rec)
    ensures flash.failures >= old(flash.failures) && (ok ==> flash.failures == old(flash.failures))
    ensures sector % SECTOR_SIZE == 0 && flash.failures == old(flash.failures) ==> ok
  {
    var off;
    ok, off := LogNextSlot(flash, sector, |rec|);
    if ok {
      CutsWithin(old(flash.mem), flash.mem, sector, sector + SECTOR_SIZE, sector, sector + SECTOR_SIZE);
      ok := WriteRecord(flash, sector, rec, off, old(flash.mem));
    }
  }

  /** Programming the record into the room made for it appends it. */
  lemma RoomIsBlank(m: Mem, m': Mem, sector: nat, rec: seq<byte>, off: nat)
    requires RecordSize(|rec|) && sector + SECTOR_SIZE <= FLASH_SIZE && off + |rec| <= SECTOR_SIZE
    requires RoomMade(m, m', sector, |rec|, off)
    ensures Programmed(m', sector + off, rec) == Appended(m, sector, rec)
  {
    if NextErased(m, sector, |rec|, 0) + |rec| <= SECTOR_SIZE {
      ProgramBlank(m, sector + off, rec);
    } else {
      BlankPrefix(m, sector, |rec|);
      ProgramBlank(m', sector, rec);
    }
  }

  /** ... and the record then reads back. */
  lemma ReadsBack(m: Mem, m': Mem, sector: nat, rec: seq<byte>, off: nat)
    requires RecordSize(|rec|) && sector + SECTOR_SIZE <= FLASH_SIZE && off + |rec| <= SECTOR_SIZE
    requires RoomMade(m, m', sector, |rec|, off)
    ensures var at := sector + off; Appended(m, sector, rec)[at..at + |rec|] == rec
  {
  }

  predicate LegalCells(cells: seq<Cell>) {
    forall k :: 0 <= k < |cells| && cells[k].Good? ==> cells[k].rec.Legal()
  }

  /** The control log as the loader reads it. */
  function CellBytes(m: Mem, i: nat): (b: seq<byte>)
    requires i < CELL_COUNT
    ensures |b| == RECORD_SIZE
  {
    m[CONTROL + RECORD_SIZE * i..CONTROL + RECORD_SIZE * (i + 1)]
  }

  function Cells(crc: Checksum, m: Mem): (c: seq<Cell>)
    ensures |c| == CELL_COUNT && LegalCells(c)
  {
    seq(CELL_COUNT, i requires 0 <= i < CELL_COUNT => Decode(crc, CellBytes(m, i)))
  }

  lemma CellAt(crc: Checksum, m: Mem, i: nat)
    requires i < CELL_COUNT
    ensures Cells(crc, m)[i] == Decode(crc, CellBytes(m, i))
    ensures Cells(crc, m)[i].Blank? <==> CellBytes(m, i) == Nor.Blank(RECORD_SIZE)
  {
  }

  /** Which cells are blank in flash. */
  ghost predicate BlankAlike(m: Mem, cells: seq<Cell>) {
    && |cells| == CELL_COUNT
    && forall i :: 0 <= i < CELL_COUNT ==> (cells[i].Blank? <==> CellBytes(m, i) == Nor.Blank(RECORD_SIZE))
  }

  lemma {:induction false} NextErasedIs(m: Mem, cells: seq<Cell>, i: nat)
    requires BlankAlike(m, cells) && i <= CELL_COUNT
    ensures NextErased(m, CONTROL, RECORD_SIZE, RECORD_SIZE * i) == RECORD_SIZE * FirstBlank(cells, i)
    decreases CELL_COUNT - i
  {
    if i < CELL_COUNT {
      assert CellBytes(m, i) == m[CONTROL + RECORD_SIZE * i..CONTROL + RECORD_SIZE * i + RECORD_SIZE];
      NextErasedIs(m, cells, i + 1);
    }
  }

  lemma NextErasedIsFirstBlank(crc: Checksum, m: Mem, i: nat)
    requires i <= CELL_COUNT
    ensures NextErased(m, CONTROL, RECORD_SIZE, RECORD_SIZE * i) == RECORD_SIZE * FirstBlank(Cells(crc, m), i)
  {
    forall k | 0 <= k < CELL_COUNT ensures Cells(crc, m)[k].Blank? <==> CellBytes(m, k) == Nor.Blank(RECORD_SIZE) {
      CellAt(crc, m, k);
    }
    NextErasedIs(m, Cells(crc, m), i);
  }

  lemma BlankCells(crc: Checksum, m: Mem)
    ensures Cells(crc, Erased(m, CONTROL)) == Blanks(CELL_COUNT)
  {
    var e := Erased(m, CONTROL);
    forall i | 0 <= i < CELL_COUNT ensures CellBytes(e, i) == Nor.Blank(RECORD_SIZE) {
      assert e[CONTROL..CONTROL + SECTOR_SIZE] == Nor.Blank(SECTOR_SIZE);
      assert CellBytes(e, i) == Nor.Blank(SECTOR_SIZE)[RECORD_SIZE * i..RECORD_SIZE * (i + 1)];
    }
    assert Cells(crc, e) == Blanks(CELL_COUNT);
  }

  lemma WriteCell(crc: Checksum, m: Mem, k: nat, r: Control)
    requires k < CELL_COUNT && r.Legal()
    ensures Cells(crc, Write(m, CONTROL + RECORD_SIZE * k, Encode(crc, r))) == Cells(crc, m)[k := Good(r)]
  {
    var rec := Encode(crc, r);
    var w := Write(m, CONTROL + RECORD_SIZE * k, rec);
    forall i | 0 <= i < CELL_COUNT ensures Cells(crc, w)[i] == Cells(crc, m)[k := Good(r)][i] {
      CellAt(crc, w, i);
      CellAt(crc, m, i);
      if i == k {
        assert CellBytes(w, k) == rec;
        DecodeEncode(crc, r);
      } else {
        CellElsewhere(m, k, rec, i);
      }
    }
    assert Cells(crc, w) == Cells(crc, m)[k := Good(r)];
  }

  lemma CellElsewhere(m: Mem, k: nat, rec: seq<byte>, i: nat)
    requires k < CELL_COUNT && i < CELL_COUNT && i != k && |rec| == RECORD_SIZE
    ensures CellBytes(Write(m, CONTROL + RECORD_SIZE * k, rec), i) == CellBytes(m, i)
  {
    WriteElsewhere(m, CONTROL + RECORD_SIZE * k, rec, CONTROL + RECORD_SIZE * i, CONTROL + RECORD_SIZE * (i + 1));
  }

  /** In flash, appending an encoded record is appending its cell. */
  lemma AppendedCells(crc: Checksum, m: Mem, r: Control)
    requires r.Legal()
    ensures Cells(crc, Appended(m, CONTROL, Encode(crc, r))) == Append(Cells(crc, m), Good(r))
  {
    NextErasedIsFirstBlank(crc, m, 0);
    var k := FirstBlank(Cells(crc, m), 0);
    if k < CELL_COUNT {
      WriteCell(crc, m, k, r);
    } else {
      BlankCells(crc, m);
      WriteCell(crc, Erased(m, CONTROL), 0, r);
    }
  }

  /** cells is what the control log holds, cell by cell. */
  ghost predicate Reads(crc: Checksum, m: Mem, cells: seq<Cell>) {
    |cells| == CELL_COUNT
    && forall i {:trigger CellBytes(m, i)} :: 0 <= i < CELL_COUNT ==> cells[i] == Decode(crc, CellBytes(m, i))
  }

  lemma CellsRead(crc: Checksum, m: Mem)
    ensures Reads(crc, m, Cells(crc, m))
  {
  }

  method ReadCell(crc: Checksum, flash: Flash, i: nat, ghost cells: seq<Cell>) returns (c: Cell)
    requires i < CELL_COUNT && Reads(crc, flash.mem, cells)
    ensures c == cells[i]
  {
    c := Decode(crc, CellBytes(flash.mem, i));
  }

  /** The scan of the log for its newest record. */
  method ScanLog(crc: Checksum, flash: Flash, ghost cells: seq<Cell>) returns (r: Option<Control>)
    requires Reads(crc, flash.mem, cells)
    ensures r == Load(cells)
  {
    ghost var best: Option<nat> := None;
    r := None;
    var i := 0;
    while i < CELL_COUNT
      invariant 0 <= i <= CELL_COUNT
      invariant Scanned(cells, i, best, r)
    {
      var c := ReadCell(crc, flash, i, cells);
      ScanStep(cells, i, best, r);
      if c.Blank? {
        return;
      }
      if c.Good? && (r.None? || Newer(c.rec.seqNo, r.value.seqNo)) {
        r, best := Some(c.rec), Some(i);
      }
      i := i + 1;
    }
    ScanStep(cells, i, best, r);
  }

  method ControlLoad(crc: Checksum, flash: Flash) returns (r: Option<Control>)
    ensures r == Load(Cells(crc, flash.mem))
    ensures r.Some? ==> r.value.Legal()
  {
    CellsRead(crc, flash.mem);
    r := ScanLog(crc, flash, Cells(crc, flash.mem));
  }

  /** r is the newest record, at best, of the first i cells. */
  ghost predicate Scanned(cells: seq<Cell>, i: nat, best: Option<nat>, r: Option<Control>) {
    && i <= |cells| && (best.Some? ==> best.value < i && cells[best.value].Good?)
    && r == (if best.None? then None else Some(cells[best.value].rec))
    && Scan(cells, i, best) == Scan(cells, 0, None)
  }

  lemma ScanStep(cells: seq<Cell>, i: nat, best: Option<nat>, r: Option<Control>)
    requires Scanned(cells, i, best, r)
    ensures i == |cells| || cells[i].Blank? ==> r == Load(cells)
    ensures i < |cells| && !cells[i].Blank? ==>
              var c := cells[i];
              if c.Good? && (r.None? || Newer(c.rec.seqNo, r.value.seqNo))
              then Scanned(cells, i + 1, Some(i), Some(c.rec))
              else Scanned(cells, i + 1, best, r)
  {
  }

  /** Append a control record under the next sequence number. */
  method ControlSave(crc: Checksum, flash: Flash, rec: Control) returns (ok: bool)
    requires flash.Valid()
    modifies flash
    ensures flash.Valid() && OnlyWithin(old(flash.mem), flash.mem, CONTROL, CONTROL + SECTOR_SIZE)
    ensures flash.exposed <= old(flash.exposed) + Cuts(old(flash.mem), CONTROL, CONTROL + SECTOR_SIZE)
    ensures var was := Cells(crc, old(flash.mem));
            ok && rec.Legal() ==> Cells(crc, flash.mem) == Append(was, Good(Numbered(was, rec)))
    ensures flash.failures >= old(flash.failures) && (ok <==> flash.failures == old(flash.failures))
  {
    var last := ControlLoad(crc, flash);
    var numbered := rec.(seqNo := if last.None? then 0 else (last.value.seqNo + 1) % 0x1_0000);
    assert numbered == Numbered(Cells(crc, flash.mem), rec);
    if numbered.Legal() {
      AppendedCells(crc, flash.mem, numbered);
    }
    ok := LogAppend(flash, CONTROL, Encode(crc, numbered));
  }

  const DEFAULTS := Control(0, 0, SLOT_NONE, 0, 0, 0)

  /** What the boot code works with: the loaded record, or the defaults when there is none. */
  function ControlOf(crc: Checksum, m: Mem): (c: Control)
    ensures c.Legal()
  {
    Current(Cells(crc, m))
  }

  function Current(cells: seq<Cell>): (c: Control)
    requires LegalCells(cells)
    ensures c.Legal()
  {
    var r := Load(cells);
    if r.None? then DEFAULTS else r.value
  }

  /** The record a running slot's confirmation asks for; None when there is nothing to write. */
  function Confirmation(loaded: Option<Control>, slot: Slot): Option<Control> {
    if loaded.None? then Some(DEFAULTS.(active := slot, confirmed := 1))
    else if loaded.value.active == slot && loaded.value.pending == SLOT_NONE && loaded.value.confirmed != 0 then None
    else Some(loaded.value.(active := slot, pending := SLOT_NONE, attempts := 0, confirmed := 1))
  }

  method ConfirmRunningSlot(crc: Checksum, flash: Flash, slot: byte) returns (ok: bool)
    requires flash.Valid()
    modifies flash
    ensures flash.Valid() && OnlyWithin(old(flash.mem), flash.mem, CONTROL, CONTROL + SECTOR_SIZE)
    ensures flash.exposed <= old(flash.exposed) + Cuts(old(flash.mem), CONTROL, CONTROL + SECTOR_SIZE)
    ensures flash.failures >= old(flash.failures)
    ensures ok <==> slot < SLOT_COUNT && flash.failures == old(flash.failures)
    ensures ok ==>
              var was := Cells(crc, old(flash.mem));
              var asked := Confirmation(Load(was), slot);
              if asked.None? then flash.mem == old(flash.mem) && flash.exposed == old(flash.exposed)
              else Cells(crc, flash.mem) == Append(was, Good(Numbered(was, asked.value)))
  {
    if slot >= SLOT_COUNT {
      return false;
    }
    var loaded := ControlLoad(crc, flash);
    var asked := Confirmation(loaded, slot);
    if asked.None? {
      return true;
    }
    ok := ControlSave(crc, flash, asked.value);
  }

  /** The log after a confirmation that reports success. */
  function AfterConfirm(cells: seq<Cell>, slot: Slot): (s: seq<Cell>)
    requires cells != []
    ensures |s| == |cells|
  {
    var asked := Confirmation(Load(cells), slot);
    if asked.None? then cells else Append(cells, Good(Numbered(cells, asked.value)))
  }

  /**
   * After a confirmation that reports success and whose save, if it made one, takes: the slot is active, confirmed,
   * nothing is pending, and confirming again writes nothing.
   */
  lemma ConfirmTakesEffect(cells: seq<Cell>, slot: Slot)
    requires cells != [] && (Confirmation(Load(cells), slot).Some? ==> SaveTakes(cells))
    ensures var after := AfterConfirm(cells, slot);
            && Load(after).Some?
            && Load(after).value.active == slot && Load(after).value.pending == SLOT_NONE
            && Load(after).value.confirmed != 0
            && (Confirmation(Load(cells), slot).Some? ==> Load(after).value.attempts == 0)
            && Confirmation(Load(after), slot) == None
            && (Contiguous(cells) ==> Contiguous(after))
  {
    var asked := Confirmation(Load(cells), slot);
    if asked.Some? {
      SaveIsDurable(cells, asked.value);
      if Contiguous(cells) {
        AppendContiguous(cells, Good(Numbered(cells, asked.value)));
      }
    }
  }

  /** Only the state of an image record is ever told apart; what it is for is diagnosis. */
  const IMAGE_REC_MAGIC := 0x494D_4554
  const STATE_FLASHING := 0x464C_5348
  const STATE_READY := 0x5245_4144

  function ImageRecord(crc: Checksum, state: u32, size: u32, imageCrc: u32, version: u32): (b: seq<byte>)
    ensures |b| == 32
  {
    var body := Le(4, IMAGE_REC_MAGIC) + Le(4, state) + Le(4, size) + Le(4, imageCrc) + Le(4, version)
                + Le(4, 0) + Le(4, 0);
    body + Le(4, crc(body))
  }

  method ImageRecordAppend(crc: Checksum, flash: Flash, sector: nat, state: u32, size: u32, imageCrc: u32, version: u32)
    returns (ok: bool)
    requires flash.Valid() && sector + SECTOR_SIZE <= FLASH_SIZE
    modifies flash
    ensures flash.Valid() && OnlyWithin(old(flash.mem), flash.mem, sector, sector + SECTOR_SIZE)
    ensures flash.exposed <= old(flash.exposed) + Cuts(old(flash.mem), sector, sector + SECTOR_SIZE)
    ensures ok ==> flash.mem == Appended(old(flash.mem), sector, ImageRecord(crc, state, size, imageCrc, version))
    ensures flash.failures >= old(flash.failures) && (ok ==> flash.failures == old(flash.failures))
    ensures sector % SECTOR_SIZE == 0 && flash.failures == old(flash.failures) ==> ok
  {
    ok := LogAppend(flash, sector, ImageRecord(crc, state, size, imageCrc, version));
  }
}
