/** Hardware-triggered SPI frames and the fetch that collects them (Driver/hpm_impl/drv_spi.c). */
module SpiTrig {
  import opened Bytes

  /**
   * The controller and its history: words in the transmit FIFO, words received so far, how many of them have left the
   * receive FIFO, transfers started, whether the running one waits for a transmit word. Then the triggers since the
   * transmit level was last sampled (and since the sampling now in progress), those that came later than the depth
   * allows, and those that found the transmit FIFO empty.
   */
  datatype Controller = Controller(tx: nat, words: seq<u32>, drained: nat, started: nat, owed: bool,
                                   since: nat, recent: nat, late: nat, starved: nat) {
    predicate Active() { started > |words| }

    predicate Shape() { drained <= |words| <= started <= |words| + 1 && (owed ==> Active() && tx == 0) }
  }

  datatype Event = Trigger | Complete(word: u32)

  /** A trigger starts a transfer, which takes a transmit word or waits for one; a busy controller ignores it. */
  function Happen(c: Controller, depth: nat, e: Event): Controller {
    match e
    case Trigger =>
      if c.Active() then c
      else
        var d := c.(started := c.started + 1, since := c.since + 1, recent := c.recent + 1,
                    late := if c.since >= depth then c.late + 1 else c.late);
        if c.tx == 0 then d.(owed := true, starved := c.starved + 1) else d.(tx := c.tx - 1)
    case Complete(w) =>
      if c.Active() && !c.owed then c.(words := c.words + [w]) else c
  }

  /** A word written to the transmit FIFO goes to a waiting transfer first. */
  function Put(c: Controller): Controller { if c.owed then c.(owed := false) else c.(tx := c.tx + 1) }

  /** As long as no trigger was late: none was starved, and the words left and the triggers counted cover the depth. */
  ghost predicate Supplied(c: Controller, depth: nat) {
    c.Shape() && (c.late == 0 ==> c.starved == 0 && !c.owed && c.tx + c.since >= depth)
  }

  /** The top-up in progress, with k words still to be written: it will cover the depth, and not overfill the FIFO. */
  ghost predicate Filling(c: Controller, depth: nat, k: nat) {
    (c.late == 0 ==> c.tx + c.recent + k >= depth) && c.tx + k <= depth
  }

  /** The receive side and the supply go on whatever the hardware does. */
  ghost predicate Onward(c: Controller, c': Controller, depth: nat) {
    && c.words <= c'.words && c.drained == c'.drained && c.started <= c'.started
    && c'.since - c.since == c'.recent - c.recent == c'.started - c.started
    && c.late <= c'.late && (c'.since <= depth ==> c'.late == c.late)
  }

  lemma HappenKeeps(c: Controller, depth: nat, e: Event, k: nat)
    requires Supplied(c, depth)
    ensures Supplied(Happen(c, depth, e), depth) && Onward(c, Happen(c, depth, e), depth)
    ensures Filling(c, depth, k) ==> Filling(Happen(c, depth, e), depth, k)
  {
  }

  lemma PutKeeps(c: Controller, depth: nat, k: nat)
    requires Supplied(c, depth) && Filling(c, depth, k) && k > 0
    ensures Supplied(Put(c), depth) && Onward(c, Put(c), depth) && Filling(Put(c), depth, k - 1)
  {
  }

  ghost function Play(c: Controller, depth: nat, es: seq<Event>): Controller
    decreases es
  {
    if es == [] then c else Play(Happen(c, depth, es[0]), depth, es[1..])
  }

  ghost function Triggers(es: seq<Event>): nat
    decreases es
  {
    if es == [] then 0 else (if es[0].Trigger? then 1 else 0) + Triggers(es[1..])
  }

  /** From a covered state, any events with no more triggers than the depth still allows are late for none of them. */
  lemma {:induction false} EnoughForDepthTriggers(c: Controller, depth: nat, es: seq<Event>)
    requires Supplied(c, depth) && c.late == 0 && c.since + Triggers(es) <= depth
    ensures Play(c, depth, es).late == 0 && Play(c, depth, es).starved == 0 && Supplied(Play(c, depth, es), depth)
    decreases es
  {
    if es != [] {
      HappenKeeps(c, depth, es[0], 0);
      EnoughForDepthTriggers(Happen(c, depth, es[0]), depth, es[1..]);
    }
  }

  /** One more trigger than that, with every transfer completing, finds the FIFO empty: the bound is exact. */
  lemma {:induction false} OneTooMany(c: Controller, depth: nat, n: nat, w: u32)
    requires c.Shape() && !c.Active() && c.tx == n
    ensures Play(c, depth, Burst(n, w) + [Trigger]).starved == c.starved + 1
    decreases n
  {
    if n == 0 {
      assert [Trigger][1..] == [];
      assert Burst(n, w) + [Trigger] == [Trigger];
      assert Play(c, depth, [Trigger]) == Play(Happen(c, depth, Trigger), depth, []);
    } else {
      var c1 := Happen(c, depth, Trigger);
      var c2 := Happen(c1, depth, Complete(w));
      var es := Burst(n, w) + [Trigger];
      assert es[0] == Trigger && es[1..][0] == Complete(w) && es[1..][1..] == Burst(n - 1, w) + [Trigger];
      assert Play(c, depth, es) == Play(c1, depth, es[1..]) == Play(c2, depth, es[1..][1..]);
      OneTooMany(c2, depth, n - 1, w);
    }
  }

  ghost function Burst(n: nat, w: u32): seq<Event> { if n == 0 then [] else [Trigger, Complete(w)] + Burst(n - 1, w) }

  /** What a fetch makes of the controller as its last status read shows it. */
  function Sampled(c: Controller): Fetched {
    if c.Active() then TimedOut else if |c.words| <= c.drained then Nothing else New(c.words[|c.words| - 1])
  }

  lemma {:induction false} PlayOnward(c: Controller, depth: nat, es: seq<Event>)
    requires c.Shape()
    ensures Play(c, depth, es).Shape() && c.words <= Play(c, depth, es).words && Play(c, depth, es).drained == c.drained
    ensures !c.Active() ==> Play(c, depth, es).started - c.started == 0 || |Play(c, depth, es).words| >= c.started
    decreases es
  {
    if es != [] {
      PlayOnward(Happen(c, depth, es[0]), depth, es[1..]);
    }
  }

  /**
   * The next fetch after one that emptied the FIFO is sure to bring a frame triggered after that one's status read
   * exactly if that read saw the bus idle. After a time-out the unfinished old frame may still come.
   */
  lemma NextIsNewerExactlyWhenIdle(c: Controller, depth: nat)
    requires c.Shape() && c.drained == |c.words| && !c.owed
    ensures (forall es: seq<Event> :: Sampled(Play(c, depth, es)).New? ==> |Play(c, depth, es).words| > c.started)
            <==> !c.Active()
  {
    if c.Active() {
      var es := [Complete(0)];
      assert es[1..] == [];
      assert Play(c, depth, es) == Play(Happen(c, depth, es[0]), depth, []) == Happen(c, depth, Complete(0));
      assert Sampled(Play(c, depth, es)) == New(0) && |Play(c, depth, es).words| == c.started;
    } else {
      forall es: seq<Event> | Sampled(Play(c, depth, es)).New? ensures |Play(c, depth, es).words| > c.started {
        PlayOnward(c, depth, es);
      }
    }
  }

  /** Frames handed out, by number: each newer than the one before. */
  ghost predicate Increasing(ns: seq<nat>, bound: nat) {
    && (forall i :: 0 < i < |ns| ==> ns[i - 1] < ns[i])
    && (forall i :: 0 <= i < |ns| ==> ns[i] < bound)
  }

  datatype Fetched = New(word: u32) | Nothing | NotArmed | TimedOut

  class SpiBus {
    var armed: bool
    var txDepth: nat
    var staleDrop: nat
    var busyTimeout: nat
    /** The hardware. */
    var c: Controller
    ghost var handedOut: seq<nat>

    ghost predicate Valid()
      reads this
    {
      && c.Shape() && Increasing(handedOut, c.drained)
      && (armed ==> Supplied(c, txDepth) && Filling(c, txDepth, 0))
    }

    constructor ()
      ensures Valid() && !armed && staleDrop == busyTimeout == 0 && handedOut == []
    {
      armed, txDepth, staleDrop, busyTimeout, handedOut := false, 0, 0, 0, [];
      c := Controller(0, [], 0, 0, false, 0, 0, 0, 0);
    }

    /** Wait, with a bound, for a transfer in progress; nothing triggers another one yet. */
    method WaitIdle() returns (idle: bool)
      requires c.Shape() && Increasing(handedOut, c.drained)
      modifies this`c
      ensures c.Shape() && old(c).words <= c.words && c == old(c).(words := c.words)
      ensures idle == !c.Active() && (!old(c).Active() ==> idle && c == old(c))
    {
      var polls := *;
      var i := 0;
      while c.Active() && i < polls
        invariant c.Shape() && old(c).words <= c.words && c == old(c).(words := c.words)
        invariant !old(c).Active() ==> c == old(c)
      {
        var completes: bool := *;
        var word: u32 := *;
        if completes {
          c := Happen(c, 0, Complete(word));
        }
        i := i + 1;
      }
      idle := !c.Active();
    }

    /** Once the bus is idle: clear both FIFOs, fill the transmit FIFO, let triggers through. */
    method Arm(depth: nat) returns (ok: bool)
      requires Valid()
      modifies this
      ensures Valid() && old(c).words <= c.words && c.started == old(c).started && handedOut == old(handedOut)
      ensures old(armed) ==> ok && armed && c == old(c)
      ensures !old(armed) ==> ok == armed == !c.Active() && (!old(c).Active() ==> ok)
      ensures !old(armed) && ok ==> c.tx == txDepth == depth && c.drained == |c.words| && c.since == c.late == 0
      ensures !old(armed) && !ok ==> c == old(c).(words := c.words)
      ensures if !old(armed) && ok then staleDrop == busyTimeout == 0
              else staleDrop == old(staleDrop) && busyTimeout == old(busyTimeout)
    {
      if armed {
        return true;
      }
      var idle := WaitIdle();
      if !idle {
        return false;
      }
      ghost var was := c;
      c := c.(tx := 0, drained := |c.words|, since := 0, recent := 0, late := 0, starved := 0);
      txDepth := depth;
      var i := 0;
      while i < txDepth
        invariant 0 <= i <= txDepth && txDepth == depth && !armed && handedOut == old(handedOut)
        invariant c == was.(tx := i, drained := |c.words|, since := 0, recent := 0, late := 0, starved := 0)
      {
        c := Put(c);
        i := i + 1;
      }
      staleDrop, busyTimeout := 0, 0;
      armed := true;
      ok := true;
    }

    /** Triggers and completed transfers, any number of them, between two accesses of the fetch. */
    method Hardware(ghost k: nat)
      requires c.Shape() && Supplied(c, txDepth)
      modifies this`c
      ensures Supplied(c, txDepth) && Onward(old(c), c, txDepth)
      ensures Filling(old(c), txDepth, k) ==> Filling(c, txDepth, k)
      ensures Filling(old(c), txDepth, 0) ==> Filling(c, txDepth, 0)
    {
      var n := *;
      var i := 0;
      while i < n
        invariant Supplied(c, txDepth) && Onward(old(c), c, txDepth)
        invariant Filling(old(c), txDepth, k) ==> Filling(c, txDepth, k)
        invariant Filling(old(c), txDepth, 0) ==> Filling(c, txDepth, 0)
      {
        var e: Event := *;
        HappenKeeps(c, txDepth, e, k);
        HappenKeeps(c, txDepth, e, 0);
        c := Happen(c, txDepth, e);
        i := i + 1;
      }
    }

    /** Wait, with a bound, for a transfer in progress: any number of status reads. */
    method AwaitIdle() returns (status: Controller)
      requires Supplied(c, txDepth) && Filling(c, txDepth, 0)
      modifies this`c
      ensures Supplied(c, txDepth) && Filling(c, txDepth, 0)
      ensures Onward(old(c), status, txDepth) && Onward(status, c, txDepth) && status.Shape()
    {
      status := c;
      if status.Active() {
        var polls := *;
        var i := 0;
        while status.Active() && i < polls
          invariant Supplied(c, txDepth) && Filling(c, txDepth, 0)
          invariant Onward(old(c), status, txDepth) && Onward(status, c, txDepth) && status.Shape()
        {
          Hardware(0);
          status := c;
          i := i + 1;
        }
      }
      Hardware(0);
    }

    /** Take count words out of the receive FIFO; the last one is kept. */
    method Drain(count: nat) returns (word: u32)
      requires Supplied(c, txDepth) && Filling(c, txDepth, 0) && c.drained + count <= |c.words|
      modifies this`c
      ensures Supplied(c, txDepth) && Filling(c, txDepth, 0)
      ensures Onward(old(c).(drained := c.drained), c, txDepth) && c.drained == old(c).drained + count
      ensures count > 0 ==> word == old(c).words[c.drained - 1]
    {
      word := 0;
      var left := count;
      while left != 0
        invariant 0 <= left <= count && c.drained == old(c).drained + count - left
        invariant Supplied(c, txDepth) && Filling(c, txDepth, 0)
        invariant Onward(old(c).(drained := c.drained), c, txDepth)
        invariant left < count ==> word == old(c).words[c.drained - 1]
      {
        word := c.words[c.drained];
        c := c.(drained := c.drained + 1);
        left := left - 1;
        Hardware(0);
      }
    }

    /** Fill the transmit FIFO up to its depth, counting from a fresh sample of its level. */
    method TopUp()
      requires Supplied(c, txDepth) && Filling(c, txDepth, 0)
      modifies this`c
      ensures Supplied(c, txDepth) && Filling(c, txDepth, 0)
      ensures old(c).words <= c.words && c.drained == old(c).drained && old(c).started <= c.started
      ensures c.since == c.started - old(c).started
      ensures old(c).since + c.since <= txDepth ==> c.late == old(c).late
    {
      var count := c.tx;
      c := c.(recent := 0);
      ghost var sampled := c;
      ghost var k := txDepth - count;
      Hardware(k);
      while count < txDepth
        invariant k == txDepth - count && count <= txDepth
        invariant Supplied(c, txDepth) && Filling(c, txDepth, k) && Onward(sampled, c, txDepth)
      {
        PutKeeps(c, txDepth, k);
        c := Put(c);
        count := count + 1;
        k := k - 1;
        Hardware(k);
      }
      c := c.(since := c.recent);
    }

    /** The receive half: at is the controller at the last status read, whose receive level decides what is drained. */
    method Receive() returns (r: Fetched, ghost at: Controller)
      requires Supplied(c, txDepth) && Filling(c, txDepth, 0)
      modifies this`c, this`busyTimeout, this`staleDrop
      ensures Supplied(c, txDepth) && Filling(c, txDepth, 0)
      ensures at.Shape() && Onward(old(c), at, txDepth) && Onward(at.(drained := c.drained), c, txDepth)
      ensures r == Sampled(at) && c.drained == |at.words|
      ensures busyTimeout == old(busyTimeout) + if r.TimedOut? then 1 else 0
      ensures staleDrop == old(staleDrop) + if c.drained - old(c).drained > 1 then c.drained - old(c).drained - 1 else 0
    {
      var status := AwaitIdle();
      at := status;
      var timedOut := status.Active();
      if timedOut {
        busyTimeout := busyTimeout + 1;
      }
      var count := |status.words| - status.drained;
      if count > 1 {
        staleDrop := staleDrop + count - 1;
      }
      var word := Drain(count);
      if timedOut {
        r := TimedOut;
      } else if count == 0 {
        r := Nothing;
      } else {
        r := New(word);
      }
    }

    /** Collect the newest frame completed since the last fetch, drop older ones, and top up the transmit FIFO. */
    method Fetch() returns (r: Fetched, ghost at: Controller)
      requires Valid()
      modifies this
      ensures Valid() && armed == old(armed) && txDepth == old(txDepth)
      ensures !armed ==> r == NotArmed && c == old(c) && handedOut == old(handedOut)
      ensures armed ==> r == Sampled(at) && Onward(old(c), at, txDepth) && at.words <= c.words
      ensures armed ==> c.drained == |at.words| && (!r.TimedOut? <==> c.drained == at.started)
      ensures r.New? ==> r.word == c.words[c.drained - 1] && handedOut == old(handedOut) + [c.drained - 1]
      ensures !r.New? ==> handedOut == old(handedOut)
      ensures r.New? <==> armed && c.drained == at.started && c.drained > old(c).drained
      ensures busyTimeout == old(busyTimeout) + if r.TimedOut? then 1 else 0
      ensures staleDrop == old(staleDrop) + if c.drained - old(c).drained > 1 then c.drained - old(c).drained - 1 else 0
      ensures armed && old(c).since + (c.started - old(c).started) <= txDepth ==> c.late == old(c).late
    {
      at := c;
      if !armed {
        return NotArmed, at;
      }
      r, at := Receive();
      TopUp();
      if r.New? {
        handedOut := handedOut + [c.drained - 1];
      }
    }
  }
}
