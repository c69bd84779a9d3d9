/** Remainders by a number that is not a constant. */
module Remainders {
  lemma Grows(M: nat, d: int)
    ensures d >= 1 ==> M * d >= M
    ensures d <= -1 ==> M * d + M <= 0
  {
  }

  lemma ModUnique(M: nat, q: int, r: int)
    requires 0 <= r < M
    ensures (M * q + r) % M == r
  {
    var x := M * q + r;
    var d := x / M - q;
    assert r - x % M == M * d;
    Grows(M, d);
  }

  lemma ModShift(M: nat, k: int, z: int)
    requires M > 0
    ensures (M * k + z) % M == z % M
  {
    var q := z / M;
    assert M * k + z == M * (k + q) + z % M;
    ModUnique(M, k + q, z % M);
  }

  lemma WrapSum(M: nat, x: int, y: int)
    requires M > 0
    ensures (x % M + y) % M == (x + y) % M
  {
    var k := x / M;
    assert x + y == M * k + (x % M + y);
    ModShift(M, k, x % M + y);
  }

  lemma WrapDistinct(M: nat, x: int, y: int)
    requires x < y < x + M
    ensures x % M != y % M
  {
    var d := y / M - x / M;
    assert y - x == M * d + (y % M - x % M);
    Grows(M, d);
  }
}
