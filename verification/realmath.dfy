/** Products, squares and absolute values of reals, as functions, so that proofs can name them. */
module RealMath {

  function Abs(r: real): real { if r < 0.0 then -r else r }

  function Times(a: real, b: real): real { a * b }

  function Square(r: real): real { r * r }

  lemma Ordered(a: real, b: real, t: real)
    requires t > 0.0
    ensures a <= b <==> a * t <= b * t
  {
    if a <= b {
      assert (b - a) * t >= 0.0;
    } else {
      assert (a - b) * t > 0.0;
    }
  }
}
