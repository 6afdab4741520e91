/** Division facts the solver does not find on its own. */
module IntMath {

  lemma AtLeast(r: nat, t: int)
    ensures t >= 1 ==> r * t >= r
    ensures t <= -1 ==> r * t + r <= 0
  {
  }

  lemma RemainderOf(k: int, r: nat, q: int, d: int)
    requires 0 <= d < r && k == r * q + d
    ensures k % r == d && k / r == q
  {
    var q', d' := k / r, k % r;
    assert k == r * q' + d';
    assert r * (q' - q) == d - d';
    AtLeast(r, q' - q);
  }
}
