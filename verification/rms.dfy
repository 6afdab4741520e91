/** Sliding-window mean square by running sums (App/Algorithm/Src/algo_rms.c), over the reals. */
module Rms {
  import opened RealMath

  function Sum(s: seq<real>): real { if s == [] then 0.0 else Sum(s[..|s| - 1]) + s[|s| - 1] }

  function SumSq(s: seq<real>): (r: real)
    ensures r >= 0.0
  {
    if s == [] then 0.0
    else
      assert Square(s[|s| - 1]) >= 0.0;
      SumSq(s[..|s| - 1]) + Square(s[|s| - 1])
  }

  /** Sum of the squared distances from m. */
  function Deviation(s: seq<real>, m: real): (r: real)
    ensures r >= 0.0
  {
    if s == [] then 0.0
    else
      assert Square(s[|s| - 1] - m) >= 0.0;
      Deviation(s[..|s| - 1], m) + Square(s[|s| - 1] - m)
  }

  function Quotient(a: real, n: nat): real
    requires n > 0
  {
    a / n as real
  }

  function Mean(s: seq<real>): real
    requires s != []
  {
    Quotient(Sum(s), |s|)
  }

  /** The mean square of a window, or of its distances from its own mean, computed from the samples themselves. */
  function Direct(w: seq<real>, removeDc: bool): real {
    if w == [] then 0.0
    else if removeDc then Quotient(Deviation(w, Mean(w)), |w|)
    else Quotient(SumSq(w), |w|)
  }

  lemma {:induction false} SumsAppend(a: seq<real>, b: seq<real>)
    ensures Sum(a + b) == Sum(a) + Sum(b) && SumSq(a + b) == SumSq(a) + SumSq(b)
    decreases |b|
  {
    if b == [] {
      assert a + b == a;
    } else {
      assert (a + b)[..|a + b| - 1] == a + b[..|b| - 1];
      SumsAppend(a, b[..|b| - 1]);
    }
  }

  /** Expanding the square under the sum. */
  lemma {:induction false} DeviationExpands(s: seq<real>, m: real)
    ensures Deviation(s, m) == SumSq(s) - 2.0 * Times(m, Sum(s)) + Times(|s| as real, Square(m))
  {
    if s != [] {
      var t, x := s[..|s| - 1], s[|s| - 1];
      DeviationExpands(t, m);
      ExpandStep(|t| as real, m, Sum(t), SumSq(t), x);
      assert |s| as real == |t| as real + 1.0;
    }
  }

  lemma ExpandStep(n: real, m: real, sum: real, sumSq: real, x: real)
    ensures sumSq - 2.0 * Times(m, sum) + Times(n, Square(m)) + Square(x - m)
            == sumSq + Square(x) - 2.0 * Times(m, sum + x) + Times(n + 1.0, Square(m))
  {
  }

  lemma MeanTimes(a: real, n: nat)
    requires n > 0
    ensures Quotient(a, n) * n as real == a
  {
  }

  /** A sum of squared distances from the mean, in terms of the two sums. */
  predicate Centred(n: real, m: real, sum: real, sumSq: real, d: real) {
    n > 0.0 && m * n == sum && d >= 0.0 && d == sumSq - 2.0 * Times(m, sum) + Times(n, Square(m))
  }

  lemma AboutMean(s: seq<real>)
    requires s != []
    ensures Centred(|s| as real, Mean(s), Sum(s), SumSq(s), Deviation(s, Mean(s)))
  {
    DeviationExpands(s, Mean(s));
    MeanTimes(Sum(s), |s|);
  }

  lemma CentredShare(n: real, m: real, sum: real, sumSq: real, d: real)
    requires Centred(n, m, sum, sumSq, d)
    ensures sumSq / n - Square(m) == d / n >= 0.0
  {
    assert d == sumSq - n * (m * m);
    assert (sumSq - n * (m * m)) / n == sumSq / n - m * m;
  }

  lemma CentredBound(n: real, m: real, sum: real, sumSq: real, d: real)
    requires Centred(n, m, sum, sumSq, d)
    ensures Square(sum) <= Times(n, sumSq)
  {
    assert d == sumSq - m * sum;
    assert n * d >= 0.0;
    assert n * (m * sum) == sum * sum;
  }

  /** The running-sum formula for the AC mean square is the direct one around the mean, so it is never negative. */
  lemma AroundTheMean(s: seq<real>)
    requires s != []
    ensures Quotient(SumSq(s), |s|) - Square(Mean(s)) == Quotient(Deviation(s, Mean(s)), |s|) >= 0.0
  {
    AboutMean(s);
    CentredShare(|s| as real, Mean(s), Sum(s), SumSq(s), Deviation(s, Mean(s)));
  }

  /** Cauchy and Schwarz. */
  lemma SumsBound(s: seq<real>)
    ensures Square(Sum(s)) <= Times(|s| as real, SumSq(s))
  {
    if s == [] {
      Nothing();
    } else {
      AboutMean(s);
      CentredBound(|s| as real, Mean(s), Sum(s), SumSq(s), Deviation(s, Mean(s)));
    }
  }

  lemma Nothing()
    ensures Square(0.0) == 0.0 && Times(0.0, 0.0) == 0.0
  {
  }

  // The ring of samples.

  /** The last size samples, or all of them. */
  function Window(h: seq<real>, size: nat): seq<real> { if |h| <= size then h else h[|h| - size..] }

  datatype Ring = Ring(cells: seq<real>, idx: nat, count: nat, filled: bool, sumSq: real, sum: real) {
    predicate Shape() {
      && idx < |cells| && count <= |cells|
      && (filled <==> count == |cells|) && (!filled ==> idx == count)
    }

    /** The samples held, oldest first. */
    function Held(): (w: seq<real>)
      requires Shape()
      ensures |w| == count
    {
      if filled then cells[idx..] + cells[..idx] else cells[..count]
    }

    /** Running sums that are the sums of the window over the history. */
    ghost predicate Tracks(h: seq<real>) {
      Shape() && Held() == Window(h, |cells|) && sumSq == SumSq(Held()) && sum == Sum(Held())
    }
  }

  function Advanced(r: Ring, x: real): Ring
    requires r.Shape()
  {
    var oldest := r.cells[r.idx];
    var idx := if r.idx + 1 >= |r.cells| then 0 else r.idx + 1;
    var count := if r.count < |r.cells| then r.count + 1 else r.count;
    if r.filled then
      Ring(r.cells[r.idx := x], idx, count, true, r.sumSq + (Square(x) - Square(oldest)), r.sum + (x - oldest))
    else
      Ring(r.cells[r.idx := x], idx, count, count >= |r.cells|, r.sumSq + Square(x), r.sum + x)
  }

  /** Overwriting the oldest of a full ring: in the middle of the buffer, and at its end. */
  lemma Rotates(cells: seq<real>, i: nat, x: real)
    requires i < |cells|
    ensures var after := cells[i := x];
            && after[i + 1..] + after[..i + 1] == (cells[i..] + cells[..i])[1..] + [x]
            && (i + 1 == |cells| ==> after[0..] + after[..0] == after[i + 1..] + after[..i + 1])
  {
    var after := cells[i := x];
    assert after[i + 1..] == cells[i + 1..] && after[..i + 1] == cells[..i] + [x];
    assert (cells[i..] + cells[..i])[1..] == cells[i + 1..] + cells[..i];
  }

  /** Taking the next place of a ring that is not full: the last place completes it. */
  lemma Fills(cells: seq<real>, n: nat, x: real)
    requires n < |cells|
    ensures var after := cells[n := x];
            && after[..n + 1] == cells[..n] + [x]
            && (n + 1 == |cells| ==> after[0..] + after[..0] == after[..n + 1])
  {
  }

  lemma HeldAdvances(r: Ring, x: real)
    requires r.Shape()
    ensures Advanced(r, x).Shape()
    ensures Advanced(r, x).Held() == (if r.filled then r.Held()[1..] else r.Held()) + [x]
    ensures r.filled ==> r.Held()[0] == r.cells[r.idx]
  {
    if r.filled {
      Rotates(r.cells, r.idx, x);
    } else {
      Fills(r.cells, r.idx, x);
    }
  }

  /** One sample in, the oldest out once the window is full; the sums follow without a rescan. */
  lemma AdvanceTracks(r: Ring, h: seq<real>, x: real)
    requires r.Tracks(h)
    ensures Advanced(r, x).Tracks(h + [x])
  {
    HeldAdvances(r, x);
    var w := r.Held();
    if r.filled {
      assert w == [w[0]] + w[1..];
      SumsAppend([w[0]], w[1..]);
      SumsAppend(w[1..], [x]);
      OneSum(w[0]);
      OneSum(x);
      assert Window(h + [x], |r.cells|) == w[1..] + [x];
    } else {
      SumsAppend(w, [x]);
      OneSum(x);
      assert Window(h + [x], |r.cells|) == w + [x];
    }
  }

  lemma OneSum(x: real)
    ensures Sum([x]) == x && SumSq([x]) == Square(x)
  {
    assert [x][..0] == [];
  }

  /** The buffer in storage order has the sums of the window. */
  lemma BufferSums(r: Ring)
    requires r.Shape()
    ensures Sum(r.cells[..r.count]) == Sum(r.Held()) && SumSq(r.cells[..r.count]) == SumSq(r.Held())
  {
    if r.filled {
      SumsAppend(r.cells[r.idx..], r.cells[..r.idx]);
      SumsAppend(r.cells[..r.idx], r.cells[r.idx..]);
      assert r.cells[..r.idx] + r.cells[r.idx..] == r.cells[..r.count];
    }
  }

  class RmsWindow {
    const buf: array<real>
    const removeDc: bool
    var idx: nat
    var count: nat
    var filled: bool
    var sumSq: real
    var sum: real
    /** All samples accepted since the last reset. */
    ghost var h: seq<real>

    ghost function View(): Ring reads this, buf { Ring(buf[..], idx, count, filled, sumSq, sum) }

    ghost predicate Valid()
      reads this, buf
    {
      buf.Length > 0 && View().Tracks(h)
    }

    constructor (size: nat, removeDc: bool)
      requires size > 0
      ensures Valid() && fresh(buf) && h == [] && buf.Length == size && this.removeDc == removeDc
    {
      buf := new real[size](_ => 0.0);
      this.removeDc := removeDc;
      idx, count, filled, sumSq, sum, h := 0, 0, false, 0.0, 0.0, [];
    }

    method Reset()
      requires Valid()
      modifies this, buf
      ensures Valid() && h == []
    {
      idx, count, filled, sumSq, sum, h := 0, 0, false, 0.0, 0.0, [];
      forall i | 0 <= i < buf.Length {
        buf[i] := 0.0;
      }
    }

    /** The mean square of the window; with the DC part removed the clamp at zero never acts. */
    method MeanSq() returns (r: real)
      requires Valid()
      ensures r == Direct(Window(h, buf.Length), removeDc) >= 0.0
    {
      var denom := if filled then buf.Length else if count > 0 then count else 1;
      r := Quotient(sumSq, denom);
      if count > 0 {
        AroundTheMean(View().Held());
      } else {
        Empty();
      }
      if removeDc {
        var mean := Quotient(sum, denom);
        r := r - Square(mean);
        assert r >= 0.0;
        r := if r < 0.0 then 0.0 else r;
      }
      NotNegative(sumSq, denom);
    }

    /** A sample in, the oldest out, both sums brought up to date. */
    method Store(x: real)
      requires View().Shape()
      modifies this, buf
      ensures View() == Advanced(old(View()), x) && h == old(h)
    {
      ghost var after := Advanced(View(), x);
      var oldest := buf[idx];
      buf[idx] := x;
      idx := idx + 1;
      if idx >= buf.Length {
        idx := 0;
      }
      if count < buf.Length {
        count := count + 1;
      }
      if filled {
        sumSq := sumSq + (Square(x) - Square(oldest));
        sum := sum + (x - oldest);
      } else {
        sumSq := sumSq + Square(x);
        sum := sum + x;
        if count >= buf.Length {
          filled := true;
        }
      }
      assert buf[..] == after.cells;
    }

    /** The same, as seen in the history. */
    method Shift(x: real)
      requires Valid()
      modifies this, buf
      ensures Valid() && h == old(h) + [x]
    {
      AdvanceTracks(View(), h, x);
      Store(x);
      h := h + [x];
    }

    /** The running sum is kept from going negative, which over the reals it never does. */
    method ClampSum()
      requires Valid()
      modifies this`sumSq
      ensures View() == old(View())
    {
      assert sumSq == SumSq(View().Held());
      sumSq := if sumSq < 0.0 then 0.0 else sumSq;
    }

    /** The result of a sample is the mean square over the last samples, computed directly. */
    method Update(x: real) returns (r: real)
      requires Valid()
      modifies this, buf
      ensures Valid() && h == old(h) + [x]
      ensures r == Direct(Window(h, buf.Length), removeDc) >= 0.0
    {
      Shift(x);
      ClampSum();
      r := MeanSq();
    }

    /** Summing the buffer again changes nothing. */
    method Rebuild()
      requires Valid()
      modifies this`sumSq, this`sum
      ensures Valid() && View() == old(View())
    {
      BufferSums(View());
      sumSq := 0.0;
      sum := 0.0;
      var n := if filled then buf.Length else count;
      var i := 0;
      while i < n
        invariant 0 <= i <= n
        invariant sumSq == SumSq(buf[..i]) && sum == Sum(buf[..i])
      {
        assert buf[..i + 1][..i] == buf[..i];
        sumSq := sumSq + Square(buf[i]);
        sum := sum + buf[i];
        i := i + 1;
      }
    }
  }

  lemma Empty()
    ensures Quotient(0.0, 1) == 0.0 && Square(0.0) == 0.0
  {
  }

  lemma NotNegative(a: real, n: nat)
    requires n > 0
    ensures a >= 0.0 ==> Quotient(a, n) >= 0.0
  {
  }
}
