/** Whole numbers: sizes, multiples and remainders. */
module Arith {

  function Abs(n: int): (r: int)
    ensures r >= 0
  {
    if n < 0 then -n else n
  }

  function Min(a: int, b: int): int {
    if a < b then a else b
  }

  function Max(a: int, b: int): int {
    if a < b then b else a
  }

  lemma AtLeastOnce(k: int, n: int)
    requires k >= 1 && n >= 0
    ensures k * n >= n
  {}

  lemma SmallMultiple(k: int, n: int)
    requires n > 0 && -n < k * n < n
    ensures k == 0
  {
    if k >= 1 {
      AtLeastOnce(k, n);
    } else if k <= -1 {
      AtLeastOnce(-k, n);
    }
  }

  lemma WrapMod(x: nat, n: nat)
    requires 0 < n && x < 2 * n
    ensures x % n == if x < n then x else x - n
  {
    var q, e := x / n, if x < n then 0 else 1;
    assert (q - e) * n == x - x % n - e * n;
    SmallMultiple(q - e, n);
  }

  lemma Monotone(a: int, b: int, n: int)
    requires a <= b && n >= 0
    ensures a * n <= b * n
  {
    assert (b - a) * n >= 0;
  }

  lemma NextMultiple(k: int, n: int)
    ensures (k + 1) * n == k * n + n
  {}
}
