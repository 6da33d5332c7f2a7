/** Powers of two, and facts about division that the solver does not find by itself. */
module Arith {

  function Power2(n: nat): (r: nat)
    ensures r > 0
  {
    if n == 0 then 1 else 2 * Power2(n - 1)
  }

  lemma ModUnique(x: int, q: int, r: int, m: nat)
    requires 0 <= r < m && x == q * m + r
    ensures x % m == r
  {
    var k := x / m - q;
    assert k * m == r - x % m by {
      assert x == (x / m) * m + x % m;
      assert k * m == (x / m) * m - q * m;
    }
  }

  lemma ModOfMultiple(k: int, m: nat)
    requires m > 0
    ensures (k * m) % m == 0
  {
    ModUnique(k * m, k, 0, m);
  }

  lemma MultipleOfMod(x: int, m: nat) returns (k: int)
    requires m > 0 && x % m == 0
    ensures x == k * m
  {
    k := x / m;
  }

  lemma ModAdd(x: int, y: int, m: nat)
    requires m > 0
    ensures (x % m + y) % m == (x + y) % m
  {
    var q, r := (x % m + y) / m, (x % m + y) % m;
    assert x == (x / m) * m + x % m && x % m + y == q * m + r;
    assert (x / m + q) * m == (x / m) * m + q * m;
    ModUnique(x + y, x / m + q, r, m);
  }

  lemma EqualMods(x: int, y: int, m: nat)
    requires m > 0 && x % m == y % m
    ensures (y - x) % m == 0
  {
    assert x == (x / m) * m + x % m && y == (y / m) * m + y % m;
    assert y - x == (y / m - x / m) * m;
    ModOfMultiple(y / m - x / m, m);
  }
}
