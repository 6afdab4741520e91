/**
 * The append-only boot control log (App/Platform/Src/boot_meta.c), record by record.
 * A cell is one record's place in the log sector.
 */
module ControlLog {
  import opened Bytes
  import opened Layout
  import opened Options
  import Nor

  datatype Control = Control(seqNo: u16, active: byte, pending: byte, attempts: byte, confirmed: byte, reserved: u16) {
    predicate Legal() {
      active < SLOT_COUNT && (pending < SLOT_COUNT || pending == SLOT_NONE)
    }
  }

  datatype Cell = Blank | Bad | Good(rec: Control)

  const CONTROL_MAGIC := 0x424D_4554
  const RECORD_SIZE := 16
  const BODY_SIZE := 12
  const CELL_COUNT := 256

  /** magic, seq, active, pending, attempts, confirmed, reserved */
  const BODY_FORMAT: Format := [4, 2, 1, 1, 1, 1, 2]

  lemma BodySize()
    ensures Size(BODY_FORMAT) == BODY_SIZE
    ensures Range(1) == 0x100 && Range(2) == 0x1_0000 && Range(4) == 0x1_0000_0000
  {
    var f := BODY_FORMAT;
    forall k | 0 <= k < |f| ensures Size(f[k..]) == f[k] + Size(f[k + 1..]) {
      assert f[k..][1..] == f[k + 1..];
    }
    assert f[0..] == f;
  }

  function Fields(r: Control): (v: seq<nat>)
    ensures Fits(BODY_FORMAT, v)
  {
    BodySize();
    [CONTROL_MAGIC, r.seqNo, r.active, r.pending, r.attempts, r.confirmed, r.reserved]
  }

  function Body(r: Control): (b: seq<byte>)
    ensures |b| == BODY_SIZE
  {
    BodySize();
    Pack(BODY_FORMAT, Fields(r))
  }

  function Encode(crc: Checksum, r: Control): (b: seq<byte>)
    ensures |b| == RECORD_SIZE
  {
    Body(r) + Le(4, crc(Body(r)))
  }

  lemma FitsBody(v: seq<nat>)
    requires Fits(BODY_FORMAT, v)
    ensures |v| == 7 && v[1] < 0x1_0000 && v[6] < 0x1_0000
    ensures v[2] < 0x100 && v[3] < 0x100 && v[4] < 0x100 && v[5] < 0x100
  {
    BodySize();
    assert v[1] < Range(BODY_FORMAT[1]) && v[2] < Range(BODY_FORMAT[2]) && v[3] < Range(BODY_FORMAT[3]);
    assert v[4] < Range(BODY_FORMAT[4]) && v[5] < Range(BODY_FORMAT[5]) && v[6] < Range(BODY_FORMAT[6]);
  }

  /** What the loader makes of the bytes of one cell. */
  function Decode(crc: Checksum, b: seq<byte>): (c: Cell)
    requires |b| == RECORD_SIZE
    ensures c.Good? ==> c.rec.Legal()
  {
    if b == Nor.Blank(RECORD_SIZE) then Blank
    else
      BodySize();
      var v := Unpack(BODY_FORMAT, b[..BODY_SIZE]);
      FitsBody(v);
      var r := Control(v[1], v[2], v[3], v[4], v[5], v[6]);
      if v[0] == CONTROL_MAGIC && r.Legal() && crc(b[..BODY_SIZE]) == FromLe(b[BODY_SIZE..]) then Good(r) else Bad
  }

  lemma BodyStarts(r: Control)
    ensures Body(r)[0] == 0x54
  {
    BodySize();
    assert Body(r)[..4] == Le(4, CONTROL_MAGIC);
    assert CONTROL_MAGIC % 0x100 == 0x54;
    assert Le(4, CONTROL_MAGIC)[0] == 0x54;
  }

  lemma DecodeEncode(crc: Checksum, r: Control)
    requires r.Legal()
    ensures Decode(crc, Encode(crc, r)) == Good(r)
  {
    var b := Encode(crc, r);
    assert b[..BODY_SIZE] == Body(r) && b[BODY_SIZE..] == Le(4, crc(Body(r)));
    assert b != Nor.Blank(RECORD_SIZE) by {
      BodyStarts(r);
      assert b[0] == 0x54;
    }
    UnpackPack(BODY_FORMAT, Fields(r));
    FromLeLe(4, crc(Body(r)));
    BodySize();
  }

  /** Sequence numbers wrap at 16 bits: a is newer than b when it lies within half a circle ahead. */
  predicate Newer(a: u16, b: u16) {
    0 < (a - b) % 0x1_0000 < 0x8000
  }

  /** ... exactly the next 2^15 - 1 numbers, around the wrap too; of two numbers at most one is newer. */
  lemma NewerIsAhead(b: u16, k: nat)
    requires k < 0x1_0000
    ensures Newer(((b + k) % 0x1_0000) as u16, b) <==> 0 < k < 0x8000
    ensures !(Newer(((b + k) % 0x1_0000) as u16, b) && Newer(b, ((b + k) % 0x1_0000) as u16))
  {
  }

  /** First blank cell at or after i. */
  function FirstBlank(cells: seq<Cell>, i: nat): (k: nat)
    requires i <= |cells|
    ensures i <= k <= |cells| && (k < |cells| ==> cells[k].Blank?)
    ensures forall j :: i <= j < k ==> !cells[j].Blank?
    decreases |cells| - i
  {
    if i == |cells| || cells[i].Blank? then i else FirstBlank(cells, i + 1)
  }

  /** The scan for the newest record: it stops at the first blank cell. */
  function Scan(cells: seq<Cell>, i: nat, best: Option<nat>): (r: Option<nat>)
    requires i <= |cells|
    requires best.Some? ==> best.value < i && cells[best.value].Good?
    ensures r.Some? ==> r.value < |cells| && cells[r.value].Good?
    ensures r == best || (r.Some? && i <= r.value && forall j :: i <= j <= r.value ==> !cells[j].Blank?)
    ensures best.Some? ==> r.Some?
    decreases |cells| - i
  {
    if i == |cells| || cells[i].Blank? then best
    else if cells[i].Good? && (best.None? || Newer(cells[i].rec.seqNo, cells[best.value].rec.seqNo))
    then Scan(cells, i + 1, Some(i))
    else Scan(cells, i + 1, best)
  }

  function Load(cells: seq<Cell>): Option<Control> {
    var at := Scan(cells, 0, None);
    if at.None? then None else Some(cells[at.value].rec)
  }

  function NextSeqNo(cells: seq<Cell>): u16 {
    var last := Load(cells);
    if last.None? then 0 else (last.value.seqNo + 1) % 0x1_0000
  }

  /** The record a save appends: the given one under the next sequence number. */
  function Numbered(cells: seq<Cell>, r: Control): (n: Control)
    ensures n.Legal() == r.Legal()
    ensures n == r.(seqNo := n.seqNo)
  {
    r.(seqNo := NextSeqNo(cells))
  }

  function Blanks(n: nat): seq<Cell> { seq(n, _ => Blank) }

  /** Append to the first blank cell; a full log is erased first. */
  function Append(cells: seq<Cell>, c: Cell): (r: seq<Cell>)
    requires cells != []
    ensures |r| == |cells|
  {
    var k := FirstBlank(cells, 0);
    if k < |cells| then cells[k := c] else Blanks(|cells|)[0 := c]
  }

  /** No record hides behind a blank cell. */
  ghost predicate Contiguous(cells: seq<Cell>) {
    forall i :: FirstBlank(cells, 0) <= i < |cells| ==> cells[i].Blank?
  }

  lemma ScanThroughAppend(cells: seq<Cell>, c: Cell, i: nat, best: Option<nat>)
    requires i <= FirstBlank(cells, 0) < |cells| && !c.Blank?
    requires best.Some? ==> best.value < i && cells[best.value].Good?
    ensures var k := FirstBlank(cells, 0);
            Scan(cells[k := c], i, best) == Scan(cells[k := c], k, Scan(cells, i, best))
  {
    var k := FirstBlank(cells, 0);
    ScanThroughPrefix(cells, cells[k := c], k, i, best);
  }

  /** Two logs that begin alike are scanned alike as far as that goes. */
  lemma {:induction false} ScanThroughPrefix(cells: seq<Cell>, after: seq<Cell>, k: nat, i: nat, best: Option<nat>)
    requires i <= k < |cells| == |after| && cells[k].Blank? && after[..k] == cells[..k]
    requires forall j :: i <= j < k ==> !cells[j].Blank?
    requires best.Some? ==> best.value < i && cells[best.value].Good? && after[best.value] == cells[best.value]
    ensures var found := Scan(cells, i, best);
            && (found.Some? ==> found.value < k && after[found.value] == cells[found.value])
            && Scan(after, i, best) == Scan(after, k, found)
    decreases k - i
  {
    if i < k {
      assert after[i] == after[..k][i] == cells[i];
      var next := if cells[i].Good? && (best.None? || Newer(cells[i].rec.seqNo, cells[best.value].rec.seqNo))
                  then Some(i) else best;
      ScanThroughPrefix(cells, after, k, i + 1, next);
    }
  }

  lemma {:induction false} ScanKeeps(cells: seq<Cell>, i: nat, k: nat)
    requires k < i <= |cells| && cells[k].Good?
    ensures Scan(cells, i, Some(k)) == Some(k) <==>
            forall j :: i <= j < FirstBlank(cells, i) && cells[j].Good? ==>
                          !Newer(cells[j].rec.seqNo, cells[k].rec.seqNo)
    decreases |cells| - i
  {
    if i < |cells| && !cells[i].Blank? {
      if !(cells[i].Good? && Newer(cells[i].rec.seqNo, cells[k].rec.seqNo)) {
        ScanKeeps(cells, i + 1, k);
      }
    }
  }

  lemma {:induction false} FirstBlankIs(cells: seq<Cell>, i: nat, k: nat)
    requires i <= k <= |cells| && (k < |cells| ==> cells[k].Blank?)
    requires forall j :: i <= j < k ==> !cells[j].Blank?
    ensures FirstBlank(cells, i) == k
    decreases k - i
  {
    if i < k {
      FirstBlankIs(cells, i + 1, k);
    }
  }

  /** Where a save puts its record. */
  function SavedAt(cells: seq<Cell>): nat { if FirstBlank(cells, 0) == |cells| then 0 else FirstBlank(cells, 0) }

  /** The log is full, or no record in the unbroken run behind the first blank cell is newer than the next number. */
  ghost predicate SaveTakes(cells: seq<Cell>) {
    var k := FirstBlank(cells, 0);
    k < |cells| ==>
      forall j :: k < j < FirstBlank(cells, k + 1) && cells[j].Good? ==> !Newer(cells[j].rec.seqNo, NextSeqNo(cells))
  }

  /** A record put into the first blank cell is the newest found unless a newer one follows. */
  lemma PutIsNewest(cells: seq<Cell>, n: Control)
    requires FirstBlank(cells, 0) < |cells| && n.seqNo == NextSeqNo(cells)
    ensures var k := FirstBlank(cells, 0);
            Scan(cells[k := Good(n)], 0, None) == Scan(cells[k := Good(n)], k + 1, Some(k))
  {
    var k, best := FirstBlank(cells, 0), Scan(cells, 0, None);
    ScanThroughAppend(cells, Good(n), 0, None);
    assert Scan(cells[k := Good(n)], k, best) == Scan(cells[k := Good(n)], k + 1, Some(k));
  }

  lemma FullLogSave(n: nat, c: Cell)
    requires n > 0 && c.Good?
    ensures Scan(Blanks(n)[0 := c], 0, None) == Some(0)
  {
    var after := Blanks(n)[0 := c];
    assert Scan(after, 0, None) == Scan(after, 1, Some(0));
  }

  /** When a saved record is the one loaded afterwards, for every log. */
  lemma SaveIsDurable(cells: seq<Cell>, r: Control)
    requires cells != []
    ensures Scan(Append(cells, Good(Numbered(cells, r))), 0, None) == Some(SavedAt(cells)) <==> SaveTakes(cells)
    ensures SaveTakes(cells) ==> Load(Append(cells, Good(Numbered(cells, r)))) == Some(Numbered(cells, r))
  {
    var k, n := FirstBlank(cells, 0), Numbered(cells, r);
    if k < |cells| {
      var after := cells[k := Good(n)];
      PutIsNewest(cells, n);
      ScanKeeps(after, k + 1, k);
      FirstBlankIs(after, k + 1, FirstBlank(cells, k + 1));
      assert forall j :: k < j < |cells| ==> after[j] == cells[j];
    } else {
      FullLogSave(|cells|, Good(n));
    }
  }

  lemma BlanksContiguous(n: nat, c: Cell)
    requires n > 0
    ensures Contiguous(Blanks(n)) && Contiguous(Blanks(n)[0 := c])
    ensures Load(Blanks(n)) == None && (!c.Good? ==> Load(Blanks(n)[0 := c]) == None)
  {
    var b := Blanks(n)[0 := c];
    if !c.Blank? {
      FirstBlankIs(b, 0, 1);
      assert Scan(b, 0, None) == Scan(b, 1, if c.Good? then Some(0) else None);
    } else {
      assert b == Blanks(n);
    }
  }

  /** An append, complete or torn, keeps the log contiguous. */
  lemma AppendContiguous(cells: seq<Cell>, c: Cell)
    requires cells != [] && Contiguous(cells) && !c.Blank?
    ensures Contiguous(Append(cells, c))
  {
    var k := FirstBlank(cells, 0);
    if k < |cells| {
      FirstBlankIs(cells[k := c], 0, k + 1);
    } else {
      BlanksContiguous(|cells|, c);
    }
  }

  /** On a contiguous log every save takes. */
  lemma ContiguousTakes(cells: seq<Cell>)
    requires Contiguous(cells)
    ensures SaveTakes(cells)
  {
  }

  /** On a contiguous log a save that completes is what the next load returns. */
  lemma SaveThenLoad(cells: seq<Cell>, r: Control)
    requires cells != [] && Contiguous(cells)
    ensures Load(Append(cells, Good(Numbered(cells, r)))) == Some(Numbered(cells, r))
  {
    ContiguousTakes(cells);
    SaveIsDurable(cells, r);
  }

  /** What a torn erase may leave of each record: all of it, nothing, or something its checksum gives away. */
  ghost predicate Erasing(cells: seq<Cell>, left: seq<Cell>) {
    |left| == |cells| && forall i :: 0 <= i < |cells| ==> left[i] == cells[i] || !left[i].Good?
  }

  /**
   * What a power cut during a save may leave: nothing done, the log erased if it was full - in part, if erases may
   * tear - a torn record, or the record complete.
   */
  ghost predicate CutDuringSave(cells: seq<Cell>, r: Control, left: seq<Cell>, tears: bool)
    requires cells != []
  {
    || left == cells
    || (FirstBlank(cells, 0) == |cells| && (left == Blanks(|cells|) || (tears && Erasing(cells, left))))
    || left == Append(cells, Bad)
    || left == Append(cells, Good(Numbered(cells, r)))
  }

  /** The load of a log written at its first blank cell: the record there, the old one, or one from behind it. */
  lemma AppendLoads(cells: seq<Cell>, c: Cell)
    requires cells != [] && !c.Blank? && FirstBlank(cells, 0) < |cells|
    ensures var k, at := FirstBlank(cells, 0), Scan(Append(cells, c), 0, None);
            at == Scan(cells, 0, None) || (at.Some? && k <= at.value)
  {
    ScanThroughAppend(cells, c, 0, None);
  }

  /** What a partly erased log loads is one of its old records, or nothing. */
  lemma ErasingLoads(cells: seq<Cell>, left: seq<Cell>)
    requires Erasing(cells, left)
    ensures Load(left) == None || exists j :: 0 <= j < |cells| && cells[j].Good? && Load(left) == Some(cells[j].rec)
  {
    var at := Scan(left, 0, None);
    if at.Some? {
      assert cells[at.value].Good? && Load(left) == Some(cells[at.value].rec);
    }
  }

  /**
   * A cut save leaves the old record, the new one, none - only when the log was full - or another old one: only when
   * records hide behind the first blank cell, or when the erase of a full log is torn.
   */
  lemma CutSaveLoads(cells: seq<Cell>, r: Control, left: seq<Cell>, tears: bool)
    requires cells != [] && CutDuringSave(cells, r, left, tears)
    ensures |left| == |cells| && (Contiguous(cells) && !tears ==> Contiguous(left))
    ensures var k := FirstBlank(cells, 0);
            || Load(left) == Load(cells)
            || Load(left) == Some(Numbered(cells, r))
            || (k == |cells| && Load(left) == None)
            || (!Contiguous(cells) && exists j :: k < j < |cells| && cells[j].Good? && Load(left) == Some(cells[j].rec))
            || (tears && k == |cells|
                && exists j :: 0 <= j < |cells| && cells[j].Good? && Load(left) == Some(cells[j].rec))
  {
    var k := FirstBlank(cells, 0);
    if k == |cells| && tears && Erasing(cells, left) {
      ErasingLoads(cells, left);
    } else {
      AtomicCutLoads(cells, r, left);
    }
  }

  lemma AtomicCutLoads(cells: seq<Cell>, r: Control, left: seq<Cell>)
    requires cells != [] && CutDuringSave(cells, r, left, false)
    ensures |left| == |cells| && (Contiguous(cells) ==> Contiguous(left))
    ensures var k := FirstBlank(cells, 0);
            || Load(left) == Load(cells)
            || Load(left) == Some(Numbered(cells, r))
            || (k == |cells| && Load(left) == None)
            || (!Contiguous(cells) && exists j :: k < j < |cells| && cells[j].Good? && Load(left) == Some(cells[j].rec))
  {
    var k := FirstBlank(cells, 0);
    if Contiguous(cells) {
      AppendContiguous(cells, Bad);
      AppendContiguous(cells, Good(Numbered(cells, r)));
    }
    if k < |cells| && left != cells {
      var c := left[k];
      assert left == Append(cells, c);
      AppendLoads(cells, c);
      var at := Scan(left, 0, None);
      if at.Some? && at.value > k {
        assert cells[at.value].Good?;
      } else if at != Scan(cells, 0, None) {
        assert at == Some(k);
      } else {
        assert at.Some? ==> at.value < k;
      }
    } else if k == |cells| {
      BlanksContiguous(|cells|, Bad);
      BlanksContiguous(|cells|, Blank);
      SaveIsDurable(cells, r);
    }
  }

  /**
   * The design promises that a power cut loses at most the record being written. That holds unless
   * the log is full: then, and only then, some cut loses every record.
   */
  lemma CutLosesAllExactlyWhenFull(cells: seq<Cell>, r: Control, tears: bool)
    requires cells != [] && Load(cells).Some?
    ensures (exists left :: CutDuringSave(cells, r, left, tears) && Load(left) == None)
            <==> FirstBlank(cells, 0) == |cells|
  {
    if FirstBlank(cells, 0) == |cells| {
      BlanksContiguous(|cells|, Bad);
      assert CutDuringSave(cells, r, Blanks(|cells|), tears);
    } else {
      forall left | CutDuringSave(cells, r, left, tears) ensures Load(left) != None {
        CutSaveLoads(cells, r, left, tears);
      }
    }
  }

  /** All that is left of a log: record j, torn ones before it and nothing behind it. */
  function Remnant(cells: seq<Cell>, j: nat): (left: seq<Cell>)
    requires j < |cells|
    ensures |left| == |cells|
  {
    seq(|cells|, i requires 0 <= i < |cells| => if i < j then Bad else if i == j then cells[j] else Blank)
  }

  lemma {:induction false} RemnantLoads(cells: seq<Cell>, j: nat, i: nat)
    requires i <= j < |cells| && cells[j].Good?
    ensures Scan(Remnant(cells, j), i, None) == Some(j)
    decreases j - i
  {
    if i < j {
      RemnantLoads(cells, j, i + 1);
    } else {
      assert Scan(Remnant(cells, j), j, None) == Scan(Remnant(cells, j), j + 1, Some(j));
    }
  }

  lemma RemnantIsCut(cells: seq<Cell>, r: Control, rec: Control)
    requires cells != [] && FirstBlank(cells, 0) == |cells| && Good(rec) in cells
    ensures exists left :: CutDuringSave(cells, r, left, true) && Load(left) == Some(rec)
  {
    var j :| 0 <= j < |cells| && cells[j] == Good(rec);
    RemnantLoads(cells, j, 0);
    assert CutDuringSave(cells, r, Remnant(cells, j), true);
  }

  lemma OnlyOldOrNew(cells: seq<Cell>, r: Control, left: seq<Cell>)
    requires cells != [] && FirstBlank(cells, 0) == |cells| && CutDuringSave(cells, r, left, true) && Load(left).Some?
    ensures Load(left).value == Numbered(cells, r) || Good(Load(left).value) in cells
  {
    CutSaveLoads(cells, r, left, true);
  }

  /** A torn erase of a full log can bring back any of its records, however old, and nothing but those. */
  lemma TornEraseRevivesExactly(cells: seq<Cell>, r: Control, rec: Control)
    requires cells != [] && FirstBlank(cells, 0) == |cells|
    ensures (exists left :: CutDuringSave(cells, r, left, true) && Load(left) == Some(rec))
            <==> rec == Numbered(cells, r) || Good(rec) in cells
  {
    if left :| CutDuringSave(cells, r, left, true) && Load(left) == Some(rec) {
      OnlyOldOrNew(cells, r, left);
    }
    if rec == Numbered(cells, r) {
      SaveIsDurable(cells, r);
      assert CutDuringSave(cells, r, Append(cells, Good(rec)), true);
    } else if Good(rec) in cells {
      RemnantIsCut(cells, r, rec);
    }
  }

  /**
   * An erase that is itself torn can leave old records behind a blank first cell. Nothing is then loaded, and the next
   * save takes exactly if no record in the run behind it is newer than number 0.
   */
  lemma TornEraseResurrects(torn: seq<Cell>, r: Control)
    requires torn != [] && torn[0].Blank?
    ensures Load(torn) == None
    ensures var after := Append(torn, Good(Numbered(torn, r)));
            && after == torn[0 := Good(r.(seqNo := 0))]
            && (Scan(after, 0, None) == Some(0) <==>
                forall j :: 0 < j < FirstBlank(torn, 1) && torn[j].Good? ==> !Newer(torn[j].rec.seqNo, 0))
  {
    SaveIsDurable(torn, r);
  }

  /** A whole log so torn, one old record left: the save succeeds and is not what the next load returns. */
  lemma TornEraseWitness(stale: Control, r: Control)
    requires Newer(stale.seqNo, 0)
    ensures var torn := Blanks(CELL_COUNT)[1 := Good(stale)];
            Load(Append(torn, Good(Numbered(torn, r)))) == Some(stale)
  {
    var torn := Blanks(CELL_COUNT)[1 := Good(stale)];
    TornEraseResurrects(torn, r);
    var after := torn[0 := Good(r.(seqNo := 0))];
    assert Scan(after, 0, None) == Scan(after, 1, Some(0)) == Scan(after, 2, Some(1)) == Some(1);
  }
}
