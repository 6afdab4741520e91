/** The bulk receive ring: interrupt producer, task consumer, no lock (Driver/hpm_impl/drv_usb_cdc.c). */
module BulkRing {
  import opened Bytes

  const SIZE: nat := 1024
  const BUFFER: nat := 512
  const COUNTERS: int := 0x1_0000_0000

  /** An index just past the end starts over. */
  function Wrap(i: nat): (r: nat)
    requires i < 2 * SIZE
    ensures r < SIZE && r == i % SIZE
  {
    if i < SIZE then i else i - SIZE
  }

  datatype Ring = Ring(cells: seq<byte>, head: nat, tail: nat) {
    predicate Valid() { |cells| == SIZE && head < SIZE && tail < SIZE }

    function Used(): (n: nat)
      requires Valid()
      ensures n < SIZE && head == Wrap(tail + n)
    {
      if head >= tail then head - tail else SIZE - tail + head
    }

    /** The bytes waiting, oldest first. */
    function Queue(): (q: seq<byte>)
      requires Valid()
      ensures |q| == Used()
    {
      seq(Used(), i requires 0 <= i < Used() => cells[Wrap(tail + i)])
    }
  }

  /** Data laid over the cells from an index on. */
  function Laid(cells: seq<byte>, at: nat, data: seq<byte>): (r: seq<byte>)
    requires at + |data| <= |cells|
    ensures |r| == |cells|
  {
    cells[..at] + data + cells[at + |data|..]
  }

  function Least(a: nat, b: nat): nat { if a < b then a else b }

  function Room(r: Ring): nat
    requires r.Valid()
  {
    SIZE - 1 - r.Used()
  }

  /** The cells after a copy in two pieces: up to the end of the ring, then from its start. */
  function TwoPieces(cells: seq<byte>, head: nat, data: seq<byte>): (r: seq<byte>)
    requires |cells| == SIZE && head < SIZE && |data| <= SIZE
    ensures |r| == SIZE
  {
    var first := Least(SIZE - head, |data|);
    Laid(Laid(cells, head, data[..first]), 0, data[first..])
  }

  lemma TwoPiecesAt(cells: seq<byte>, head: nat, data: seq<byte>, i: nat)
    requires |cells| == SIZE && head < SIZE && |data| < SIZE && i < SIZE
    ensures TwoPieces(cells, head, data)[Wrap(head + i)] == if i < |data| then data[i] else cells[Wrap(head + i)]
  {
  }

  /** A copy in two pieces that fits appends to the queue and disturbs nothing in it. */
  lemma PushAppends(r: Ring, data: seq<byte>)
    requires r.Valid() && |data| <= Room(r)
    ensures var r' := Ring(TwoPieces(r.cells, r.head, data), Wrap(r.head + |data|), r.tail);
            r'.Valid() && r'.Queue() == r.Queue() + data
  {
    var r' := Ring(TwoPieces(r.cells, r.head, data), Wrap(r.head + |data|), r.tail);
    var n, q, q' := r.Used(), r.Queue(), r'.Queue();
    assert |q'| == n + |data|;
    forall i | 0 <= i < n + |data| ensures q'[i] == (q + data)[i] {
      if i < n {
        BehindHead(r, i);
        TwoPiecesAt(r.cells, r.head, data, SIZE - n + i);
        assert q[i] == r.cells[Wrap(r.tail + i)];
      } else {
        BehindHead(r, i);
        TwoPiecesAt(r.cells, r.head, data, i - n);
      }
      assert q'[i] == r'.cells[Wrap(r.tail + i)];
    }
  }

  /** Index i of the queue, counted from the head: before it around the ring, or past it. */
  lemma BehindHead(r: Ring, i: nat)
    requires r.Valid() && i < SIZE
    ensures var n := r.Used();
            Wrap(r.tail + i) == if i < n then Wrap(r.head + (SIZE - n + i)) else Wrap(r.head + (i - n))
  {
    assert r.head == Wrap(r.tail + r.Used());
  }

  /** Moving the tail on by one drops the oldest byte and nothing else. */
  lemma PopTakesOldest(r: Ring)
    requires r.Valid() && r.head != r.tail
    ensures var r' := r.(tail := Wrap(r.tail + 1));
            r'.Valid() && r.Queue() == [r.cells[r.tail]] + r'.Queue()
  {
    var r' := r.(tail := Wrap(r.tail + 1));
    var q, rest := r.Queue(), r'.Queue();
    assert |rest| == |q| - 1;
    forall i | 0 <= i < |q| ensures q[i] == ([r.cells[r.tail]] + rest)[i] {
      if i == 0 {
        assert Wrap(r.tail + 0) == r.tail && q[0] == r.cells[r.tail];
      } else {
        WrapNext(r.tail, i);
        assert q[i] == r.cells[Wrap(r.tail + i)] && rest[i - 1] == r.cells[Wrap(r'.tail + (i - 1))];
      }
    }
  }

  lemma WrapNext(tail: nat, i: nat)
    requires tail < SIZE && 0 < i < SIZE
    ensures Wrap(tail + i) == Wrap(Wrap(tail + 1) + (i - 1))
  {
  }

  /** A bus reset empties the ring ... */
  function Reset(r: Ring): Ring { r.(head := 0, tail := 0) }

  /**
   * ... but not if it lands inside a read, after the read has loaded the tail and before it stores the next one: stale
   * bytes come back as if received, all the way to the end of the ring, unless the tail loaded was the last index.
   */
  lemma ResetInsideRead(r: Ring, loaded: nat)
    requires r.Valid() && loaded < SIZE
    ensures Reset(r).Valid() && Reset(r).Queue() == []
    ensures var r' := Reset(r).(tail := Wrap(loaded + 1));
            r'.Valid() && (r'.Queue() == [] <==> loaded == SIZE - 1) && r'.Queue() == r.cells[loaded + 1..]
  {
    var r' := Reset(r).(tail := Wrap(loaded + 1));
    assert |r'.Queue()| == SIZE - 1 - loaded;
    var rest := r.cells[loaded + 1..];
    forall i | 0 <= i < |rest| ensures r'.Queue()[i] == rest[i] {
      assert Wrap(r'.tail + i) == loaded + 1 + i;
    }
  }

  /** Bytes offered to the ring, bytes it took, bytes read from it, bytes it had no room for. */
  datatype History = History(offered: nat, taken: seq<byte>, out: seq<byte>, dropped: nat)

  /** First in, first out, and nothing lost but what was counted. */
  ghost predicate Conserved(r: Ring, h: History, drops: u32) {
    && r.Valid()
    && h.taken == h.out + r.Queue()
    && h.offered == |h.out| + |r.Queue()| + h.dropped
    && drops as int == h.dropped % COUNTERS
  }

  function Taken(r: Ring, data: seq<byte>): seq<byte>
    requires r.Valid()
  {
    data[..Least(|data|, Room(r))]
  }

  function Pushed(r: Ring, data: seq<byte>): Ring
    requires r.Valid()
  {
    var d := Taken(r, data);
    Ring(TwoPieces(r.cells, r.head, d), Wrap(r.head + |d|), r.tail)
  }

  ghost function Offered(r: Ring, h: History, data: seq<byte>): History
    requires r.Valid()
  {
    var d := Taken(r, data);
    History(h.offered + |data|, h.taken + d, h.out, h.dropped + |data| - |d|)
  }

  lemma Counted(dropped: nat, more: nat)
    ensures (dropped % COUNTERS + more) % COUNTERS == (dropped + more) % COUNTERS
  {
  }

  lemma PushConserves(r: Ring, h: History, drops: u32, data: seq<byte>)
    requires Conserved(r, h, drops)
    ensures Conserved(Pushed(r, data), Offered(r, h, data), (drops as int + |data| - |Taken(r, data)|) % COUNTERS)
    ensures Pushed(r, data).Queue() == r.Queue() + Taken(r, data)
  {
    PushAppends(r, Taken(r, data));
    Counted(h.dropped, |data| - |Taken(r, data)|);
    assert h.out + (r.Queue() + Taken(r, data)) == h.out + r.Queue() + Taken(r, data);
  }

  lemma PopConserves(r: Ring, h: History, drops: u32)
    requires Conserved(r, h, drops) && r.head != r.tail
    ensures Conserved(r.(tail := Wrap(r.tail + 1)), h.(out := h.out + [r.cells[r.tail]]), drops)
  {
    PopTakesOldest(r);
    assert h.out + ([r.cells[r.tail]] + r.(tail := Wrap(r.tail + 1)).Queue())
        == h.out + [r.cells[r.tail]] + r.(tail := Wrap(r.tail + 1)).Queue();
  }

  lemma QueueHead(r: Ring)
    requires r.Valid()
    ensures r.Used() > 0 <==> r.head != r.tail
    ensures r.head != r.tail ==> r.Queue()[0] == r.cells[r.tail]
  {
    assert Wrap(r.tail + 0) == r.tail;
  }

  /** What any number of interrupts may do to a ring: append, and count. */
  ghost predicate Grown(r: Ring, h: History, r': Ring, h': History) {
    && r.Valid() && r'.Valid() && r.tail == r'.tail && h.out == h'.out && h.taken <= h'.taken && h.offered <= h'.offered
    && r.Queue() <= r'.Queue()
  }

  lemma GrownKeepsOldest(r: Ring, h: History, r': Ring, h': History)
    requires Grown(r, h, r', h') && r.head != r.tail
    ensures r'.head != r'.tail && r'.cells[r.tail] == r.cells[r.tail]
  {
    QueueHead(r);
    QueueHead(r');
    assert r.Queue()[0] == r'.Queue()[0];
  }

  class BulkChannel {
    const ring: array<byte>
    var head: nat
    var tail: nat
    var packets: u32
    var oversize: u32
    var drops: u32
    ghost var h: History

    ghost function View(): Ring
      reads this, ring
    {
      Ring(ring[..], head, tail)
    }

    ghost predicate Valid()
      reads this, ring
    {
      Conserved(View(), h, drops)
    }

    constructor ()
      ensures Valid() && fresh(ring) && View().Queue() == [] && h == History(0, [], [], 0)
      ensures packets == oversize == drops == 0
    {
      ring := new byte[SIZE](_ => 0);
      head, tail, packets, oversize, drops := 0, 0, 0, 0, 0;
      h := History(0, [], [], 0);
    }

    method CopyIn(at: nat, data: seq<byte>)
      requires at + |data| <= ring.Length
      modifies ring
      ensures ring[..] == Laid(old(ring[..]), at, data)
    {
      forall i | 0 <= i < |data| {
        ring[at + i] := data[i];
      }
    }

    method CopyTwice(data: seq<byte>)
      requires ring.Length == SIZE && head < SIZE && |data| < SIZE
      modifies ring
      ensures ring[..] == TwoPieces(old(ring[..]), head, data)
    {
      var first := SIZE - head;
      if first > |data| {
        first := |data|;
      }
      CopyIn(head, data[..first]);
      if |data| > first {
        CopyIn(0, data[first..]);
      }
    }

    /** Interrupt side: take what fits, count the rest as dropped. */
    method Push(data: seq<byte>)
      requires Valid()
      modifies this`head, this`drops, this`h, ring
      ensures Valid() && View() == Pushed(old(View()), data) && h == Offered(old(View()), old(h), data)
      ensures View().Queue() == old(View().Queue()) + Taken(old(View()), data)
    {
      var used := if head >= tail then head - tail else SIZE - tail + head;
      var count := SIZE - 1 - used;
      if count > |data| {
        count := |data|;
      }
      ghost var before, lost := View(), (drops as int + |data| - count) % COUNTERS;
      assert count == |Taken(before, data)|;
      PushConserves(before, h, drops, data);
      h := Offered(before, h, data);
      if count < |data| {
        drops := (drops as int + (|data| - count)) % COUNTERS;
      }
      assert drops as int == lost;
      CopyTwice(data[..count]);
      head := (head + count) % SIZE;
      assert View() == Pushed(before, data);
    }

    /** A completed OUT transfer. */
    method BulkOut(data: seq<byte>)
      requires Valid()
      modifies this`packets, this`oversize, this`head, this`drops, this`h, ring
      ensures Valid() && Grown(old(View()), old(h), View(), h) && packets as int == (old(packets) as int + 1) % COUNTERS
      ensures |data| > BUFFER ==>
                View() == old(View()) && h == old(h) && oversize as int == (old(oversize) as int + 1) % COUNTERS
      ensures |data| <= BUFFER ==>
                h.offered == old(h).offered + |data| && h.taken == old(h).taken + Taken(old(View()), data)
    {
      packets := (packets as int + 1) % COUNTERS;
      if |data| > BUFFER {
        oversize := (oversize as int + 1) % COUNTERS;
      } else if |data| > 0 {
        Push(data);
      }
    }

    /** Any number of completed transfers between two instructions of the reader. */
    method Interrupts()
      requires Valid()
      modifies this`packets, this`oversize, this`head, this`drops, this`h, ring
      ensures Valid() && Grown(old(View()), old(h), View(), h)
    {
      var n := *;
      var i := 0;
      while i < n
        invariant Valid() && Grown(old(View()), old(h), View(), h)
      {
        var data: seq<byte> := *;
        BulkOut(data);
        i := i + 1;
      }
    }

    /** One turn of the read loop: the oldest byte out, interrupts between its load and the store of the tail. */
    method ReadOne() returns (b: byte)
      requires Valid() && head != tail
      modifies this, ring
      ensures Valid() && h.out == old(h).out + [b] && old(h).taken <= h.taken
      ensures b == old(View().Queue())[0]
    {
      QueueHead(View());
      b := ring[tail];
      ghost var r, was := View(), h;
      Interrupts();
      GrownKeepsOldest(r, was, View(), h);
      PopConserves(View(), h, drops);
      tail := (tail + 1) % SIZE;
      h := h.(out := h.out + [b]);
    }

    /**
     * Task side, interrupted anywhere: between the two loads of the loop test, and between the load of a byte and the
     * store of the tail. It delivers the next bytes in order, and at least those that were waiting when it began.
     */
    method Read(dst: array<byte>, len: nat) returns (count: int)
      requires Valid() && len <= dst.Length && dst != ring
      modifies this, ring, dst
      ensures Valid() && old(h).taken <= h.taken
      ensures len == 0 ==> count == -1 && h == old(h) && View() == old(View())
      ensures len > 0 ==> 0 <= count <= len && h.out == old(h).out + dst[..count]
      ensures len > 0 ==> count >= Least(len, |old(View().Queue())|)
    {
      if len == 0 {
        return -1;
      }
      var n := 0;
      while n < len
        invariant 0 <= n <= len && Valid() && old(h).taken <= h.taken
        invariant h.out == old(h).out + dst[..n]
      {
        var seen := head;
        ghost var r, was := View(), h;
        Interrupts();
        if seen == tail {
          EmptyMeansAllRead(r, was, old(View()), old(h));
          break;
        }
        GrownKeepsOldest(r, was, View(), h);
        var b := ReadOne();
        dst[n] := b;
        n := n + 1;
      }
      count := n;
    }
  }

  lemma EmptyMeansAllRead(r: Ring, h: History, r0: Ring, h0: History)
    requires r.Valid() && r0.Valid() && h.taken == h.out + r.Queue() && h0.taken == h0.out + r0.Queue()
    requires r.head == r.tail && h0.taken <= h.taken
    ensures |h.out| >= |h0.out| + |r0.Queue()|
  {
  }
}
