/** NOR flash: programming can only clear bits, erasing sets a sector to 0xFF, power may fail at any moment. */
module Nor {
  import opened Bytes
  import opened Layout

  type Mem = m: seq<byte> | |m| == FLASH_SIZE witness seq(FLASH_SIZE, _ => 0)

  function Pow2(n: nat): nat {
    if n == 0 then 1 else 2 * Pow2(n - 1)
  }

  /** Programming leaves the bitwise AND of what was there and what is written. */
  function And(a: nat, b: nat): (r: nat)
    ensures r <= a && r <= b
  {
    if a == 0 || b == 0 then 0
    else (if a % 2 == 1 && b % 2 == 1 then 1 else 0) + 2 * And(a / 2, b / 2)
  }

  lemma {:induction false} AndOnes(n: nat, b: nat)
    requires b < Pow2(n)
    ensures And(Pow2(n) - 1, b) == b && And(b, Pow2(n) - 1) == b
  {
    if n > 0 {
      AndOnes(n - 1, b / 2);
      assert (Pow2(n) - 1) / 2 == Pow2(n - 1) - 1;
    }
  }

  lemma AndErased(b: byte)
    ensures And(0xFF, b) == b && And(b, 0xFF) == b
  {
    assert Pow2(8) == 256;
    AndOnes(8, b);
  }

  function Blank(n: nat): seq<byte> { seq(n, _ => 0xFF) }

  function Write(m: Mem, at: nat, data: seq<byte>): (m': Mem)
    requires at + |data| <= FLASH_SIZE
    ensures OnlyWithin(m, m', at, at + |data|) && m'[at..at + |data|] == data
  {
    m[..at] + data + m[at + |data|..]
  }

  lemma SliceOfSlice(m: Mem, lo: nat, hi: nat, i: nat, j: nat)
    requires lo <= hi <= FLASH_SIZE && i <= j <= hi - lo
    ensures m[lo..hi][i..j] == m[lo + i..lo + j]
  {
    var a, b := m[lo..hi][i..j], m[lo + i..lo + j];
    forall k | 0 <= k < j - i ensures a[k] == b[k] {
    }
    assert a == b;
  }

  function Erased(m: Mem, sector: nat): Mem
    requires sector + SECTOR_SIZE <= FLASH_SIZE
  {
    Write(m, sector, Blank(SECTOR_SIZE))
  }

  function Programmed(m: Mem, at: nat, data: seq<byte>): Mem
    requires at + |data| <= FLASH_SIZE
  {
    Write(m, at, seq(|data|, i requires 0 <= i < |data| => And(m[at + i], data[i])))
  }

  lemma WriteByte(m: Mem, at: nat, data: seq<byte>, i: nat)
    requires at + |data| <= FLASH_SIZE && i < FLASH_SIZE
    ensures Write(m, at, data)[i] == if at <= i < at + |data| then data[i - at] else m[i]
  {
    if at <= i < at + |data| {
      assert Write(m, at, data)[at..at + |data|][i - at] == data[i - at];
    }
  }

  lemma WriteElsewhere(m: Mem, at: nat, data: seq<byte>, lo: nat, hi: nat)
    requires at + |data| <= FLASH_SIZE && lo <= hi <= FLASH_SIZE && (hi <= at || at + |data| <= lo)
    ensures Write(m, at, data)[lo..hi] == m[lo..hi]
  {
  }

  /** What programming data at an address makes of byte i. */
  function ByteAfter(b: byte, at: nat, data: seq<byte>, i: nat): byte {
    if at <= i < at + |data| then And(b, data[i - at]) else b
  }

  lemma ProgrammedByte(m: Mem, at: nat, data: seq<byte>, i: nat)
    requires at + |data| <= FLASH_SIZE && i < FLASH_SIZE
    ensures Programmed(m, at, data)[i] == ByteAfter(m[i], at, data, i)
  {
    WriteByte(m, at, seq(|data|, k requires 0 <= k < |data| => And(m[at + k], data[k])), i);
  }

  ghost predicate OnlyWithin(m: Mem, m': Mem, lo: int, hi: int) {
    forall i :: 0 <= i < FLASH_SIZE && !(lo <= i < hi) ==> m'[i] == m[i]
  }

  /** Bytes the chip touches to program n of them. */
  function WordBytes(n: nat): nat { (n + 3) / 4 * 4 }

  /** Bytes in whole words among n that start on a word boundary. */
  function WholeWords(at: nat, n: nat): (k: nat)
    requires at % 4 == 0 && at + n <= FLASH_SIZE
    ensures k <= n < k + 4 && WordBytes(n) == if k == n then k else k + 4
    ensures k < n ==> at + k + 4 <= FLASH_SIZE
  {
    n / 4 * 4
  }

  lemma ProgramBlank(m: Mem, at: nat, data: seq<byte>)
    requires at + |data| <= FLASH_SIZE && m[at..at + |data|] == Blank(|data|)
    ensures Programmed(m, at, data) == Write(m, at, data)
  {
    var a, b := Programmed(m, at, data), Write(m, at, data);
    forall i | 0 <= i < FLASH_SIZE ensures a[i] == b[i] {
      ProgrammedByte(m, at, data, i);
      WriteByte(m, at, data, i);
      if at <= i < at + |data| {
        assert m[at..at + |data|][i - at] == m[i];
        AndErased(data[i - at]);
      }
    }
    assert a == b;
  }

  lemma EraseThenProgram(m: Mem, sector: nat, data: seq<byte>)
    requires sector + SECTOR_SIZE <= FLASH_SIZE && |data| <= SECTOR_SIZE
    ensures Programmed(Erased(m, sector), sector, data) == Write(Erased(m, sector), sector, data)
  {
    var e := Erased(m, sector);
    assert e[sector..sector + SECTOR_SIZE] == Blank(SECTOR_SIZE);
    assert e[sector..sector + |data|] == Blank(SECTOR_SIZE)[..|data|];
    ProgramBlank(e, sector, data);
  }

  /** The images a power cut may leave while an operation works on [lo, hi): anything there, nothing elsewhere. */
  ghost function Cuts(m: Mem, lo: int, hi: int): iset<Mem> {
    iset m': Mem | OnlyWithin(m, m', lo, hi)
  }

  class Flash {
    var mem: Mem
    /** Sector size the chip reported at start-up; erasing refuses any other than ours. */
    const reportedSectorSize: nat
    /** Every image that a power cut at any moment so far could have left behind. */
    ghost var exposed: iset<Mem>
    /** How many operations the chip has failed, or refused for its sector size. */
    ghost var failures: nat

    ghost predicate Valid() reads this { mem in exposed }

    constructor (image: Mem, sectorSize: nat)
      ensures Valid() && mem == image && exposed == iset{image} && reportedSectorSize == sectorSize && failures == 0
    {
      mem := image;
      reportedSectorSize := sectorSize;
      exposed := iset{image};
      failures := 0;
    }

    /** An operation of the boot ROM on [at, at + |done|): it completes, or fails and leaves anything there. */
    method RomWrite(at: nat, done: seq<byte>) returns (ok: bool)
      requires Valid() && at + |done| <= FLASH_SIZE
      modifies this
      ensures Valid() && OnlyWithin(old(mem), mem, at, at + |done|)
      ensures ok ==> mem == Write(old(mem), at, done)
      ensures exposed == old(exposed) + Cuts(old(mem), at, at + |done|)
      ensures failures == old(failures) + if ok then 0 else 1
    {
      exposed := exposed + Cuts(mem, at, at + |done|);
      ok := *;
      if !ok {
        failures := failures + 1;
      }
      var wreck: seq<byte> := *;
      mem := Write(mem, at, if !ok && |wreck| == |done| then wreck else done);
    }

    /** Erase one sector. */
    method Erase(at: nat) returns (ok: bool)
      requires Valid()
      modifies this
      ensures Valid() && OnlyWithin(old(mem), mem, at, at + SECTOR_SIZE)
      ensures ok ==> at + SECTOR_SIZE <= FLASH_SIZE && at % SECTOR_SIZE == 0 && mem == Erased(old(mem), at)
      ensures exposed <= old(exposed) + Cuts(old(mem), at, at + SECTOR_SIZE)
      ensures failures >= old(failures)
      ensures ok <==> at % SECTOR_SIZE == 0 && at < FLASH_SIZE && failures == old(failures)
    {
      if reportedSectorSize != SECTOR_SIZE || at % SECTOR_SIZE != 0 || at >= FLASH_SIZE {
        if reportedSectorSize != SECTOR_SIZE {
          failures := failures + 1;
        }
        return false;
      }
      ok := RomWrite(at, Blank(SECTOR_SIZE));
    }

    method RomProgram(at: nat, data: seq<byte>) returns (ok: bool)
      requires Valid() && at + |data| <= FLASH_SIZE
      modifies this
      ensures Valid() && OnlyWithin(old(mem), mem, at, at + |data|)
      ensures ok ==> mem == Programmed(old(mem), at, data)
      ensures exposed == old(exposed) + Cuts(old(mem), at, at + |data|)
      ensures failures == old(failures) + if ok then 0 else 1
    {
      ok := RomWrite(at, Programmed(mem, at, data)[at..at + |data|]);
    }

    /** The bytes that do not fill a word, padded to one with 0xFF. */
    method ProgramTail(at: nat, rest: seq<byte>) returns (ok: bool)
      requires Valid() && 0 < |rest| < 4 && at + 4 <= FLASH_SIZE
      modifies this
      ensures Valid() && OnlyWithin(old(mem), mem, at, at + 4)
      ensures ok ==> mem == Programmed(old(mem), at, rest)
      ensures exposed == old(exposed) + Cuts(old(mem), at, at + 4)
      ensures failures == old(failures) + if ok then 0 else 1
    {
      ok := RomProgram(at, rest + Blank(4 - |rest|));
      PaddingIsHarmless(old(mem), at, rest);
    }

    /** The words of data first, then the rest. */
    method ProgramParts(at: nat, data: seq<byte>, whole: nat) returns (ok: bool)
      requires Valid() && whole <= |data| < whole + 4 && at + |data| <= FLASH_SIZE
      requires whole < |data| ==> at + whole + 4 <= FLASH_SIZE
      modifies this
      ensures var end := at + if whole == |data| then whole else whole + 4;
              && Valid() && OnlyWithin(old(mem), mem, at, end)
              && exposed <= old(exposed) + Cuts(old(mem), at, end)
      ensures ok ==> mem == ProgrammedInTwo(old(mem), at, data, whole)
      ensures failures == old(failures) + if ok then 0 else 1
    {
      ghost var end := at + if whole == |data| then whole else whole + 4;
      ok := true;
      if whole > 0 {
        CutsWithin(mem, mem, at, at + whole, at, end);
        ok := RomProgram(at, data[..whole]);
      }
      if ok && whole < |data| {
        ghost var m1, e1 := mem, exposed;
        ok := ProgramTail(at + whole, data[whole..]);
        TwoCuts(old(mem), m1, at, at + whole, end);
        UnionWithin(old(exposed), e1, exposed, Cuts(m1, at + whole, end), Cuts(old(mem), at, end));
      }
    }

    method Program(at: nat, data: seq<byte>) returns (ok: bool)
      requires Valid()
      modifies this
      ensures Valid() && OnlyWithin(old(mem), mem, at, at + WordBytes(|data|))
      ensures ok ==> data != [] && at % 4 == 0 && at + |data| <= FLASH_SIZE && mem == Programmed(old(mem), at, data)
      ensures exposed <= old(exposed) + Cuts(old(mem), at, at + WordBytes(|data|))
      ensures failures >= old(failures)
      ensures ok <==> data != [] && at % 4 == 0 && at + |data| <= FLASH_SIZE && failures == old(failures)
    {
      if data == [] || at % 4 != 0 || at + |data| > FLASH_SIZE {
        return false;
      }
      var whole := WholeWords(at, |data|);
      SplitProgram(mem, at, data, whole);
      ok := ProgramParts(at, data, whole);
    }
  }

  /** The two ROM calls of one program operation, either of which may be empty. */
  function ProgrammedInTwo(m: Mem, at: nat, data: seq<byte>, k: nat): Mem
    requires at + |data| <= FLASH_SIZE && k <= |data|
  {
    var mid := if k == 0 then m else Programmed(m, at, data[..k]);
    if k == |data| then mid else Programmed(mid, at + k, data[k..])
  }

  lemma CutsWithin(m0: Mem, m1: Mem, lo1: int, hi1: int, lo: int, hi: int)
    requires OnlyWithin(m0, m1, lo, hi) && lo <= lo1 && hi1 <= hi
    ensures Cuts(m1, lo1, hi1) <= Cuts(m0, lo, hi)
  {
  }

  /** An operation on one stretch and then one on the next. */
  lemma TwoCuts(m0: Mem, m1: Mem, lo: int, mid: int, hi: int)
    requires OnlyWithin(m0, m1, lo, mid) && lo <= mid <= hi
    ensures Cuts(m1, mid, hi) <= Cuts(m0, lo, hi)
    ensures forall m2 :: OnlyWithin(m1, m2, mid, hi) ==> OnlyWithin(m0, m2, lo, hi)
  {
  }

  lemma UnionWithin(e0: iset<Mem>, e1: iset<Mem>, e2: iset<Mem>, c: iset<Mem>, all: iset<Mem>)
    requires e1 <= e0 + all && e2 == e1 + c && c <= all
    ensures e2 <= e0 + all
  {
  }

  lemma PaddingIsHarmless(m: Mem, at: nat, data: seq<byte>)
    requires |data| <= 4 && at + 4 <= FLASH_SIZE
    ensures Programmed(m, at, data + Blank(4 - |data|)) == Programmed(m, at, data)
  {
    var padded := data + Blank(4 - |data|);
    var a, b := Programmed(m, at, padded), Programmed(m, at, data);
    forall i | 0 <= i < FLASH_SIZE ensures a[i] == b[i] {
      ProgrammedByte(m, at, padded, i);
      ProgrammedByte(m, at, data, i);
      AndErased(m[i]);
    }
    assert a == b;
  }

  lemma ByteOf(m: Mem, p: Mem, at: nat, data: seq<byte>, i: nat)
    requires at + |data| <= FLASH_SIZE && i < FLASH_SIZE && p == Programmed(m, at, data)
    ensures p[i] == ByteAfter(m[i], at, data, i)
  {
    ProgrammedByte(m, at, data, i);
  }

  lemma SplitByte(b: byte, mid: byte, last: byte, whole: byte, at: nat, data: seq<byte>, k: nat, i: nat)
    requires k <= |data| && mid == ByteAfter(b, at, data[..k], i)
    requires last == ByteAfter(mid, at + k, data[k..], i) && whole == ByteAfter(b, at, data, i)
    ensures last == whole
  {
  }

  lemma SplitInside(m: Mem, mid: Mem, last: Mem, whole: Mem, at: nat, data: seq<byte>, k: nat)
    requires at + |data| <= FLASH_SIZE && k <= |data| && mid == Programmed(m, at, data[..k])
    requires last == Programmed(mid, at + k, data[k..]) && whole == Programmed(m, at, data)
    ensures last == whole
  {
    forall i | 0 <= i < FLASH_SIZE ensures last[i] == whole[i] {
      ByteOf(m, mid, at, data[..k], i);
      ByteOf(mid, last, at + k, data[k..], i);
      ByteOf(m, whole, at, data, i);
      SplitByte(m[i], mid[i], last[i], whole[i], at, data, k, i);
    }
  }

  lemma SplitProgram(m: Mem, at: nat, data: seq<byte>, k: nat)
    requires at + |data| <= FLASH_SIZE && k <= |data| && data != []
    ensures ProgrammedInTwo(m, at, data, k) == Programmed(m, at, data)
  {
    if k == 0 {
      assert data[0..] == data;
    } else if k == |data| {
      assert data[..k] == data;
    } else {
      var mid := Programmed(m, at, data[..k]);
      SplitInside(m, mid, Programmed(mid, at + k, data[k..]), Programmed(m, at, data), at, data, k);
    }
  }
}
