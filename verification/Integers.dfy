/** Minimum and maximum, and facts about quotients and remainders. */
module Integers {

  function Min(a: int, b: int): int {
    if b < a then b else a
  }

  function Max(a: int, b: int): int {
    if a < b then b else a
  }

  lemma ModUnique(a: int, m: nat, d: int, r: int)
    requires m > 0 && 0 <= r < m && a == m * d + r
    ensures a % m == r && a / m == d
  {
    var d', r' := a / m, a % m;
    assert m * (d' - d) == r - r';
    if d' > d {
      MulAtLeast(m, d' - d);
    } else if d' < d {
      MulAtLeast(m, d - d');
    }
  }

  lemma MulAtLeast(m: nat, k: int)
    requires k >= 1
    ensures m * k >= m
  {
  }

  lemma DivMod(x: int, p: nat) returns (q: int)
    requires p > 0
    ensures x == p * q + x % p
  {
    q := x / p;
  }

  lemma MulOrder(p: nat, a: int, b: int)
    requires a <= b
    ensures p * a <= p * b
  {
  }
}
