/** Arithmetic around a circular track. */
module Cyclic {

  lemma MultipleApart(n: nat, d: int)
    requires n > 0
    ensures d >= 1 ==> n * d >= n
    ensures d <= -1 ==> n * d + n <= 0
  {
  }

  lemma ModIs(x: int, n: nat, k: int, r: nat)
    requires r < n && x == n * k + r
    ensures x % n == r
  {
    var d := k - x / n;
    assert n * d == x % n - r by {
      assert x == n * (x / n) + x % n;
      assert n * d == n * k - n * (x / n);
    }
    MultipleApart(n, d);
    assert d == 0;
  }

  /** Turning back undoes turning. */
  lemma TurnBack(i: nat, start: nat, n: nat)
    requires i < n
    ensures ((i + start) % n - start) % n == i
  {
    var q := (i + start) / n;
    assert i + start == n * q + (i + start) % n;
    assert n * (-q) == -(n * q);
    ModIs((i + start) % n - start, n, -q, i);
  }

  lemma ModSum(i: nat, start: nat, n: nat)
    requires n > 0
    ensures (i + start % n) % n == (i + start) % n
  {
    var q, k := start / n, (i + start % n) / n;
    var r := (i + start % n) % n;
    assert start == n * q + start % n;
    assert i + start % n == n * k + r;
    assert n * (k + q) == n * k + n * q;
    ModIs(i + start, n, k + q, r);
  }
}
