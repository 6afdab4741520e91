/** The bootloader's sector-buffered flash writer (bootloader/src/flash.c). */
module Writer {
  import opened Bytes
  import opened Layout
  import opened Nor

  function SectorOf(at: nat): nat { at / SECTOR_SIZE * SECTOR_SIZE }

  function RoundUp(n: nat): nat { (n + SECTOR_SIZE - 1) / SECTOR_SIZE * SECTOR_SIZE }

  lemma SectorArithmetic(a: nat, r: nat)
    requires a % SECTOR_SIZE == 0 && r < SECTOR_SIZE
    ensures SectorOf(a + r) == a
    ensures RoundUp(a + r) == if r == 0 then a else a + SECTOR_SIZE
  {
    var k := a / SECTOR_SIZE;
    assert a == k * SECTOR_SIZE && (a + r) / SECTOR_SIZE == k;
    if r > 0 {
      assert (a + r + SECTOR_SIZE - 1) / SECTOR_SIZE == k + 1;
    }
  }

  lemma SectorInSlot(base: nat, at: nat)
    requires base % SECTOR_SIZE == 0 && base <= at < base + SLOT_SIZE
    ensures SectorOf(at) % SECTOR_SIZE == 0 && base <= SectorOf(at) <= at
    ensures SectorOf(at) + SECTOR_SIZE <= base + SLOT_SIZE && at < SectorOf(at) + SECTOR_SIZE
  {
  }

  lemma SectorIsWord(sector: nat)
    requires sector % SECTOR_SIZE == 0
    ensures sector % 4 == 0
  {
    var k := sector / SECTOR_SIZE;
    assert sector == 4 * (1024 * k);
  }

  lemma AlignedSum(a: nat, b: nat)
    requires a % SECTOR_SIZE == 0 && b % SECTOR_SIZE == 0
    ensures (a + b) % SECTOR_SIZE == 0
  {
  }

  /** What committing a buffered sector does: nothing if flash already agrees, else erase and program. */
  function Committed(m: Mem, sector: nat, data: seq<byte>): (m': Mem)
    requires sector + SECTOR_SIZE <= FLASH_SIZE && |data| <= SECTOR_SIZE
    ensures m'[sector..sector + |data|] == data
    ensures OnlyWithin(m, m', sector, sector + SECTOR_SIZE)
  {
    if m[sector..sector + |data|] == data then m else Write(Erased(m, sector), sector, data)
  }

  /** Everything the writer works on, as a value. */
  datatype State = State(mem: Mem, buf: seq<byte>, base: nat, sector: nat, buffered: nat, hasSector: bool) {
    ghost predicate Valid() {
      && |buf| == SECTOR_SIZE
      && base % SECTOR_SIZE == 0 && base + SLOT_SIZE <= FLASH_SIZE
      && buffered <= SECTOR_SIZE
      && (hasSector ==> sector % SECTOR_SIZE == 0 && base <= sector && sector + SECTOR_SIZE <= base + SLOT_SIZE)
    }

    /** The image pieces: whole sectors in flash, the rest of the slot as it was in start. */
    ghost predicate Flushed(start: Mem, image: seq<byte>, done: int)
      requires Valid()
    {
      && 0 <= done <= |image| <= SLOT_SIZE && done % SECTOR_SIZE == 0
      && OnlyWithin(start, mem, base, base + done)
      && mem[base..base + done] == image[..done]
    }

    /** ... and what follows them waiting in the sector buffer, which may be full. */
    ghost predicate Staged(start: Mem, image: seq<byte>)
      requires Valid()
    {
      var done := |image| - buffered;
      && Flushed(start, image, done) && hasSector && sector == base + done
      && buffered > 0 && buf[..buffered] == image[done..]
    }

    /** image is what was written, in order, since begin found start in flash. */
    ghost predicate Holds(start: Mem, image: seq<byte>)
      requires Valid()
    {
      if hasSector then Staged(start, image) && buffered < SECTOR_SIZE
      else Flushed(start, image, |image|) && buffered == 0
    }

    function AfterCommit(): (m: Mem)
      requires Valid()
      ensures OnlyWithin(mem, m, base, base + SLOT_SIZE)
    {
      if !hasSector || buffered == 0 then mem else Committed(mem, sector, buf[..buffered])
    }

    function Enter(sec: nat): (s: State)
      requires Valid() && sec % SECTOR_SIZE == 0 && base <= sec && sec + SECTOR_SIZE <= base + SLOT_SIZE
      ensures s.Valid()
    {
      if !hasSector || sector != sec
      then State(AfterCommit(), buf, base, sec, 0, true)
      else this
    }

    function Fill(off: nat, chunk: seq<byte>): (s: State)
      requires Valid() && off + |chunk| <= SECTOR_SIZE
      ensures s.Valid()
    {
      var b := buf[..off] + chunk + buf[off + |chunk|..];
      State(mem, b, base, sector, if off + |chunk| > buffered then off + |chunk| else buffered, hasSector)
    }

    function Flush(): (s: State)
      requires Valid()
      ensures s.Valid()
    {
      State(AfterCommit(), buf, base, sector, 0, false)
    }

    /** One chunk that stays inside a sector. */
    function Chunk(at: nat, chunk: seq<byte>): (s: State)
      requires Valid() && chunk != [] && base <= at && at + |chunk| <= base + SLOT_SIZE
      requires at - SectorOf(at) + |chunk| <= SECTOR_SIZE
      ensures s.Valid() && s.base == base
    {
      SectorInSlot(base, at);
      var off := at - SectorOf(at);
      var s := Enter(SectorOf(at)).Fill(off, chunk);
      if off + |chunk| == SECTOR_SIZE then s.Flush() else s
    }
  }

  /** Length of the first chunk of n bytes written at an address. */
  function ChunkSize(at: nat, n: nat): (k: nat)
    ensures k <= n && at - SectorOf(at) + k <= SECTOR_SIZE && (n > 0 ==> k > 0)
  {
    var room := SECTOR_SIZE - (at - SectorOf(at));
    if room > n then n else room
  }

  /** Committing the staged sector completes it in flash. */
  lemma CommitCompletes(s: State, start: Mem, image: seq<byte>)
    requires s.Valid() && s.Staged(start, image)
    ensures s.AfterCommit()[s.base..s.base + |image|] == image
    ensures OnlyWithin(start, s.AfterCommit(), s.base, s.base + |image| - s.buffered + SECTOR_SIZE)
  {
    var m, done := s.AfterCommit(), |image| - s.buffered;
    assert m[s.base..s.base + done] == s.mem[s.base..s.base + done];
    assert m[s.base..s.base + |image|] == m[s.base..s.base + done] + m[s.base + done..s.base + |image|];
  }

  /** Copying a chunk behind the buffered end of an image stages the longer image. */
  lemma FillExtends(s: State, start: Mem, image: seq<byte>, chunk: seq<byte>)
    requires s.Valid() && s.Holds(start, image) && chunk != [] && |image| + |chunk| <= SLOT_SIZE
    requires s.buffered + |chunk| <= SECTOR_SIZE
    ensures var sec := s.base + |image| - s.buffered;
            && SectorOf(s.base + |image|) == sec && sec % SECTOR_SIZE == 0 && sec + SECTOR_SIZE <= s.base + SLOT_SIZE
            && s.Enter(sec).Fill(s.buffered, chunk).Staged(start, image + chunk)
            && s.Enter(sec).Fill(s.buffered, chunk).buffered == s.buffered + |chunk|
  {
    var done, grown := |image| - s.buffered, image + chunk;
    AlignedSum(s.base, done);
    SectorArithmetic(s.base + done, s.buffered);
    SectorInSlot(s.base, s.base + |image|);
    var filled := s.Enter(s.base + done).Fill(s.buffered, chunk);
    assert grown[..done] == image[..done];
    assert filled.Flushed(start, grown, done);
    assert filled.buf[..filled.buffered] == grown[done..];
  }

  lemma FlushExtends(s: State, start: Mem, image: seq<byte>)
    requires s.Valid() && s.Staged(start, image) && s.buffered == SECTOR_SIZE
    ensures s.Flush().Holds(start, image)
  {
    CommitCompletes(s, start, image);
    AlignedSum(|image| - SECTOR_SIZE, SECTOR_SIZE);
    assert image[..|image|] == image;
  }

  /** A chunk written right behind an image extends that image. */
  lemma ChunkExtends(s: State, start: Mem, image: seq<byte>, chunk: seq<byte>)
    requires s.Valid() && s.Holds(start, image) && chunk != [] && |image| + |chunk| <= SLOT_SIZE
    requires s.base + |image| - SectorOf(s.base + |image|) + |chunk| <= SECTOR_SIZE
    ensures s.Chunk(s.base + |image|, chunk).Holds(start, image + chunk)
  {
    AlignedSum(s.base, |image| - s.buffered);
    SectorArithmetic(s.base + |image| - s.buffered, s.buffered);
    FillExtends(s, start, image, chunk);
    var filled := s.Enter(SectorOf(s.base + |image|)).Fill(s.buffered, chunk);
    if filled.buffered == SECTOR_SIZE {
      FlushExtends(filled, start, image + chunk);
    }
  }

  /** After a last commit the image is in flash, and nothing past its last sector changed. */
  lemma FinishCompletes(s: State, start: Mem, image: seq<byte>)
    requires s.Valid() && s.Holds(start, image)
    ensures s.AfterCommit()[s.base..s.base + |image|] == image
    ensures OnlyWithin(start, s.AfterCommit(), s.base, s.base + RoundUp(|image|))
  {
    SectorArithmetic(|image| - s.buffered, s.buffered);
    if s.hasSector {
      CommitCompletes(s, start, image);
    } else {
      assert s.AfterCommit() == s.mem && RoundUp(|image|) == |image|;
      assert s.mem[s.base..s.base + |image|] == image[..|image|] == image;
    }
  }

  lemma EmptyHolds(s: State)
    requires s.Valid() && !s.hasSector && s.buffered == 0
    ensures s.Holds(s.mem, [])
  {
  }

  /** The flash under an unfinished image: its whole sectors, and the rest as it was. */
  lemma HeldFlash(s: State, start: Mem, image: seq<byte>)
    requires s.Valid() && s.Holds(start, image)
    ensures |image| <= SLOT_SIZE && s.buffered == |image| - SectorOf(|image|)
    ensures s.mem == Write(start, s.base, image[..SectorOf(|image|)])
  {
    var done := |image| - s.buffered;
    SectorArithmetic(done, s.buffered);
    OnlyWritten(start, s.mem, s.base, image[..done]);
  }

  lemma OnlyWritten(m: Mem, m': Mem, at: nat, data: seq<byte>)
    requires at + |data| <= FLASH_SIZE && OnlyWithin(m, m', at, at + |data|) && m'[at..at + |data|] == data
    ensures m' == Write(m, at, data)
  {
    var w := Write(m, at, data);
    forall i | 0 <= i < FLASH_SIZE ensures m'[i] == w[i] {
      if at <= i < at + |data| {
        assert m'[i] == m'[at..at + |data|][i - at] == w[at..at + |data|][i - at];
      }
    }
  }

  class SectorWriter {
    const flash: Flash
    const buf: array<byte>
    var base: nat
    var sector: nat
    var buffered: nat
    var hasSector: bool

    ghost function View(): State
      reads this, flash, buf
    {
      State(flash.mem, buf[..], base, sector, buffered, hasSector)
    }

    ghost predicate Valid()
      reads this, flash, buf
    {
      flash.Valid() && View().Valid()
    }

    constructor (flash: Flash)
      requires flash.Valid()
      ensures Valid() && fresh(buf) && this.flash == flash
    {
      this.flash := flash;
      buf := new byte[SECTOR_SIZE];
      base, sector, buffered, hasSector := 0, 0, 0, false;
    }

    /** Start over at an address; at the base of a slot the writer then holds the empty image. */
    method Begin(at: nat)
      modifies this
      ensures base == at && !hasSector && buffered == 0
      ensures old(Valid()) && at % SECTOR_SIZE == 0 && at + SLOT_SIZE <= FLASH_SIZE ==>
                Valid() && View().Holds(flash.mem, [])
    {
      base := at;
      sector := 0;
      buffered := 0;
      hasSector := false;
    }

    /** Erase the open sector and program what is buffered. */
    method Rewrite() returns (ok: bool)
      requires Valid() && hasSector && buffered > 0
      modifies flash
      ensures Valid()
      ensures flash.exposed <= old(flash.exposed) + Cuts(old(flash.mem), base, base + SLOT_SIZE)
      ensures OnlyWithin(old(flash.mem), flash.mem, base, base + SLOT_SIZE)
      ensures flash.failures >= old(flash.failures) && (ok <==> flash.failures == old(flash.failures))
      ensures ok ==> flash.mem == Write(Erased(old(flash.mem), sector), sector, buf[..buffered])
    {
      ghost var m0 := flash.mem;
      SectorIsWord(sector);
      CutsWithin(m0, m0, sector, sector + SECTOR_SIZE, base, base + SLOT_SIZE);
      ok := flash.Erase(sector);
      if !ok {
        return false;
      }
      ghost var m1 := flash.mem;
      CutsWithin(m0, m1, sector, sector + WordBytes(buffered), base, base + SLOT_SIZE);
      ok := flash.Program(sector, buf[..buffered]);
      EraseThenProgram(m0, sector, buf[..buffered]);
    }

    /** Nothing buffered, or flash has it already. */
    ghost predicate UpToDate()
      requires Valid()
      reads this, flash, buf
    {
      !hasSector || buffered == 0 || flash.mem[sector..sector + buffered] == buf[..buffered]
    }

    /** Bring the buffered sector into flash, which is not touched if it has the bytes already. */
    method Commit() returns (ok: bool)
      requires Valid()
      modifies flash
      ensures Valid()
      ensures flash.exposed <= old(flash.exposed) + Cuts(old(flash.mem), base, base + SLOT_SIZE)
      ensures OnlyWithin(old(flash.mem), flash.mem, base, base + SLOT_SIZE)
      ensures flash.failures >= old(flash.failures) && (ok <==> flash.failures == old(flash.failures))
      ensures old(UpToDate()) ==> ok && flash.mem == old(flash.mem) && flash.exposed == old(flash.exposed)
      ensures ok ==> flash.mem == old(View().AfterCommit())
    {
      if !hasSector || buffered == 0 {
        return true;
      }
      assert buf[..][..buffered] == buf[..buffered];
      if flash.mem[sector..sector + buffered] == buf[..buffered] {
        return true;
      }
      ok := Rewrite();
    }

    /** Switch to another sector of the slot, committing the one that was open. */
    method EnterSector(sec: nat) returns (ok: bool)
      requires Valid() && sec % SECTOR_SIZE == 0 && base <= sec && sec + SECTOR_SIZE <= base + SLOT_SIZE
      modifies this, flash
      ensures Valid() && base == old(base)
      ensures flash.exposed <= old(flash.exposed) + Cuts(old(flash.mem), base, base + SLOT_SIZE)
      ensures OnlyWithin(old(flash.mem), flash.mem, base, base + SLOT_SIZE)
      ensures flash.failures >= old(flash.failures) && (ok <==> flash.failures == old(flash.failures))
      ensures ok ==> View() == old(View()).Enter(sec)
    {
      ok := true;
      if !hasSector || sector != sec {
        ok := Commit();
        if ok {
          sector, buffered, hasSector := sec, 0, true;
        }
      }
    }

    method FillBuffer(off: nat, chunk: seq<byte>)
      requires Valid() && off + |chunk| <= SECTOR_SIZE
      modifies this, buf
      ensures Valid() && flash.mem == old(flash.mem) && View() == old(View()).Fill(off, chunk)
    {
      forall i | 0 <= i < |chunk| {
        buf[off + i] := chunk[i];
      }
      if off + |chunk| > buffered {
        buffered := off + |chunk|;
      }
      assert buf[..] == old(View()).Fill(off, chunk).buf;
    }

    /** Commit what is buffered and leave the sector. */
    method Finish() returns (ok: bool)
      requires Valid()
      modifies this, flash
      ensures Valid() && base == old(base) && !hasSector
      ensures flash.exposed <= old(flash.exposed) + Cuts(old(flash.mem), base, base + SLOT_SIZE)
      ensures OnlyWithin(old(flash.mem), flash.mem, base, base + SLOT_SIZE)
      ensures flash.failures >= old(flash.failures) && (ok <==> flash.failures == old(flash.failures))
      ensures ok ==> View() == old(View()).Flush()
    {
      ok := Commit();
      hasSector := false;
      buffered := 0;
    }

    /** Body of the write loop: one chunk that stays inside a sector. */
    method WriteChunk(at: nat, chunk: seq<byte>) returns (ok: bool)
      requires Valid() && chunk != [] && base <= at && at + |chunk| <= base + SLOT_SIZE
      requires at - SectorOf(at) + |chunk| <= SECTOR_SIZE
      modifies this, flash, buf
      ensures Valid() && base == old(base)
      ensures flash.exposed <= old(flash.exposed) + Cuts(old(flash.mem), base, base + SLOT_SIZE)
      ensures OnlyWithin(old(flash.mem), flash.mem, base, base + SLOT_SIZE)
      ensures flash.failures >= old(flash.failures) && (ok <==> flash.failures == old(flash.failures))
      ensures ok ==> View() == old(View()).Chunk(at, chunk)
    {
      SectorInSlot(base, at);
      var secOff := at - SectorOf(at);
      ok := EnterSector(SectorOf(at));
      if ok {
        FillBuffer(secOff, chunk);
        if secOff + |chunk| == SECTOR_SIZE {
          CutsWithin(old(flash.mem), flash.mem, base, base + SLOT_SIZE, base, base + SLOT_SIZE);
          ok := Finish();
        }
      }
    }

    /** A chunk that continues an image leaves the writer holding the longer one. */
    method ExtendBy(at: nat, chunk: seq<byte>, ghost start: Mem, ghost image: seq<byte>) returns (ok: bool)
      requires Valid() && chunk != [] && base <= at && at + |chunk| <= base + SLOT_SIZE
      requires at - SectorOf(at) + |chunk| <= SECTOR_SIZE
      modifies this, flash, buf
      ensures Valid() && base == old(base)
      ensures flash.exposed <= old(flash.exposed) + Cuts(old(flash.mem), base, base + SLOT_SIZE)
      ensures OnlyWithin(old(flash.mem), flash.mem, base, base + SLOT_SIZE)
      ensures flash.failures >= old(flash.failures) && (ok <==> flash.failures == old(flash.failures))
      ensures ok && old(View().Holds(start, image)) && at == base + |image| ==> View().Holds(start, image + chunk)
    {
      if View().Holds(start, image) && at == base + |image| {
        ChunkExtends(View(), start, image, chunk);
      }
      ok := WriteChunk(at, chunk);
    }

    /**
     * Accept data at any address of the slot, chunk by chunk. Whatever image was written so far,
     * data that continues it leaves the writer holding the longer image.
     */
    method WriteAt(at: nat, data: seq<byte>, ghost start: Mem, ghost image: seq<byte>) returns (ok: bool)
      requires Valid()
      modifies this, flash, buf
      ensures Valid() && base == old(base)
      ensures flash.exposed <= old(flash.exposed) + Cuts(old(flash.mem), base, base + SLOT_SIZE)
      ensures OnlyWithin(old(flash.mem), flash.mem, base, base + SLOT_SIZE)
      ensures data == [] || at < base || at + |data| > base + SLOT_SIZE ==>
                && !ok && flash.mem == old(flash.mem) && flash.exposed == old(flash.exposed)
                && flash.failures == old(flash.failures)
      ensures flash.failures >= old(flash.failures)
      ensures ok <==>
              data != [] && base <= at && at + |data| <= base + SLOT_SIZE && flash.failures == old(flash.failures)
      ensures ok && old(View().Holds(start, image)) && at == base + |image| ==> View().Holds(start, image + data)
    {
      if data == [] || at < base || at + |data| > base + SLOT_SIZE {
        return false;
      }
      ghost var follows := View().Holds(start, image) && at == base + |image|;
      ghost var grown := image;
      var pos, rest := at, data;
      while rest != []
        invariant base <= pos && pos + |rest| == at + |data| && grown + rest == image + data
        invariant Valid() && base == old(base)
        invariant flash.exposed <= old(flash.exposed) + Cuts(old(flash.mem), base, base + SLOT_SIZE)
        invariant OnlyWithin(old(flash.mem), flash.mem, base, base + SLOT_SIZE)
        invariant flash.failures == old(flash.failures)
        invariant follows ==> pos == base + |grown| && View().Holds(start, grown)
        decreases |rest|
      {
        var k := ChunkSize(pos, |rest|);
        CutsWithin(old(flash.mem), flash.mem, base, base + SLOT_SIZE, base, base + SLOT_SIZE);
        ok := ExtendBy(pos, rest[..k], start, grown);
        if !ok {
          return false;
        }
        grown := grown + rest[..k];
        pos, rest := pos + k, rest[k..];
      }
      ok := true;
      assert grown == image + data;
    }

    method Abort()
      requires Valid()
      modifies this
      ensures Valid() && base == old(base) && !hasSector
    {
      hasSector := false;
      buffered := 0;
    }
  }
}
