/** Double hashing: the probe sequence of a message catalogue's hash table. */
module DoubleHash {
  import opened Arith

  ghost predicate Prime(n: nat) {
    n > 1 && forall d :: 1 < d < n ==> n % d != 0
  }

  /** `incr` of a string with hash value `h`. */
  function Incr(h: nat, n: nat): (incr: nat)
    requires n > 2
    ensures 0 < incr < n
  {
    1 + h % (n - 2)
  }

  /** The increment is one more than the remainder of the hash value modulo `n - 2`. */
  lemma IncrRemainder(h: nat, n: nat) returns (k: nat)
    requires n > 2
    ensures h == k * (n - 2) + (Incr(h, n) - 1) && 1 <= Incr(h, n) <= n - 2
  {
    k := h / (n - 2);
  }

  /** The step from one slot to the next, without leaving 0..n or exceeding the word size. */
  function Advance(idx: nat, incr: nat, n: nat): (r: nat)
    requires idx < n && incr < n
    ensures r == (idx + incr) % n
  {
    var r := if idx >= n - incr then idx - (n - incr) else idx + incr;
    assert r == (idx + incr) % n by {
      ModUnique(idx + incr, if idx >= n - incr then 1 else 0, r, n);
    }
    r
  }

  /** The slot that is looked at after `i` steps. */
  function Probe(h: nat, n: nat, i: nat): (idx: nat)
    requires n > 2
    ensures idx < n
  {
    if i == 0 then h % n else Advance(Probe(h, n, i - 1), Incr(h, n), n)
  }

  lemma {:induction false} ProbeFormula(h: nat, n: nat, i: nat)
    requires n > 2
    ensures Probe(h, n, i) == (h + i * Incr(h, n)) % n
  {
    if i > 0 {
      ProbeFormula(h, n, i - 1);
      AdvanceFormula(h, Incr(h, n), n, i);
    }
  }

  lemma AdvanceFormula(h: nat, p: nat, n: nat, i: nat)
    requires i > 0 && p < n
    ensures Advance((h + (i - 1) * p) % n, p, n) == (h + i * p) % n
  {
    var x := h + (i - 1) * p;
    assert h + i * p == x + p;
    ModAdd(x, p, n);
  }

  /** The probes repeat after `n` steps. */
  lemma ProbePeriod(h: nat, n: nat, i: nat)
    requires n > 2
    ensures Probe(h, n, i % n) == Probe(h, n, i)
  {
    hide Probe;
    ProbeFormula(h, n, i);
    ProbeFormula(h, n, i % n);
    SameClass(h, Incr(h, n), n, i);
  }

  lemma SameClass(h: nat, p: nat, n: nat, i: nat)
    requires n > 0
    ensures (h + (i % n) * p) % n == (h + i * p) % n
  {
    var q, r, x := i / n, i % n, h + i % n * p;
    assert i * p == r * p + (q * p) * n by {
      assert i == r + q * n;
    }
    assert x == (x / n) * n + x % n;
    assert (x / n + q * p) * n == (x / n) * n + (q * p) * n;
    ModUnique(h + i * p, x / n + q * p, x % n, n);
  }

  /** If `n` divides `a * b`, it divides `a` times the remainder of `n` modulo `b`. */
  lemma RemainderProduct(n: nat, a: nat, b: nat, k: int)
    requires b > 0 && n > 0 && a * b == k * n
    ensures (a * (n % b)) % n == 0
  {
    var q, r := n / b, n % b;
    Product(n, a, b, q, r, k);
    ModOfMultiple(a - q * k, n);
  }

  lemma Product(n: int, a: int, b: int, q: int, r: int, k: int)
    requires n == q * b + r && a * b == k * n
    ensures a * r == (a - q * k) * n
  {
    assert a * n == a * (q * b) + a * r;
    assert a * (q * b) == q * (a * b);
    assert (a - q * k) * n == a * n - q * (k * n);
  }

  lemma NoDivisor(n: nat, b: nat)
    requires Prime(n) && 1 < b < n
    ensures 0 < n % b < b
  {
  }

  /** A prime does not divide a product of smaller positive numbers. */
  lemma {:induction false} NoZeroDivisor(n: nat, a: nat, b: nat)
    requires Prime(n) && 0 < a < n && 0 < b < n
    ensures (a * b) % n != 0
    decreases b
  {
    hide Prime;
    if b == 1 {
      ModUnique(a, 0, a, n);
      assert a * b == a;
    } else {
      NoDivisor(n, b);
      NoZeroDivisor(n, a, n % b);
      if (a * b) % n == 0 {
        var k := MultipleOfMod(a * b, n);
        RemainderProduct(n, a, b, k);
      }
    }
  }

  /** In a table of prime size the first `n` probes are different slots. */
  lemma ProbesDiffer(h: nat, n: nat, i: nat, j: nat)
    requires Prime(n) && n > 2 && i < j < n
    ensures Probe(h, n, i) != Probe(h, n, j)
  {
    var p := Incr(h, n);
    ProbeFormula(h, n, i);
    ProbeFormula(h, n, j);
    NoZeroDivisor(n, j - i, p);
    var x, y := h + i * p, h + j * p;
    assert (j - i) * p == y - x;
    if x % n == y % n {
      EqualMods(x, y, n);
    }
  }

  // ----- Pigeonhole -----

  function Below(n: nat): set<nat> { if n == 0 then {} else Below(n - 1) + {n - 1} }

  lemma {:induction false} BelowFacts(n: nat)
    ensures |Below(n)| == n && forall i: nat :: i in Below(n) <==> i < n
  {
    if n > 0 {
      BelowFacts(n - 1);
      var s := Below(n - 1);
      assert n - 1 !in s && Below(n) == s + {n - 1};
      assert |s + {n - 1}| == |s| + 1;
    }
  }

  /** The first `k` slots of the probe sequence. */
  function Visited(h: nat, n: nat, k: nat): set<nat>
    requires n > 2
  {
    if k == 0 then {} else Visited(h, n, k - 1) + {Probe(h, n, k - 1)}
  }

  lemma {:induction false} VisitedAt(h: nat, n: nat, k: nat, s: nat) returns (i: nat)
    requires n > 2 && s in Visited(h, n, k)
    ensures i < k && Probe(h, n, i) == s < n
  {
    hide Probe;
    i := k - 1;
    if Probe(h, n, i) != s {
      i := VisitedAt(h, n, k - 1, s);
    }
  }

  lemma {:induction false} VisitedSize(h: nat, n: nat, k: nat)
    requires Prime(n) && n > 2 && k <= n
    ensures |Visited(h, n, k)| == k
  {
    hide Probe, Prime;
    if k > 0 {
      VisitedSize(h, n, k - 1);
      if Probe(h, n, k - 1) in Visited(h, n, k - 1) {
        var i := VisitedAt(h, n, k - 1, Probe(h, n, k - 1));
        ProbesDiffer(h, n, i, k - 1);
      }
    }
  }

  lemma SubsetOfSameSize(a: set<nat>, b: set<nat>)
    requires a <= b && |a| == |b|
    ensures a == b
  {
    assert |b - a| == |b| - |a|;
    assert b == a + (b - a);
  }

  /** In a table of prime size the first `n` probes visit every slot. */
  lemma ProbesCover(h: nat, n: nat, slot: nat) returns (i: nat)
    requires Prime(n) && n > 2 && slot < n
    ensures i < n && Probe(h, n, i) == slot
  {
    VisitedSize(h, n, n);
    BelowFacts(n);
    forall s | s in Visited(h, n, n)
      ensures s in Below(n)
    {
      var j := VisitedAt(h, n, n, s);
    }
    SubsetOfSameSize(Visited(h, n, n), Below(n));
    i := VisitedAt(h, n, n, slot);
  }

  lemma StaysInClass(idx: int, d: nat, k: int)
    requires d > 0 && idx % d == d - 1
    ensures (idx + d - k * d) % d == d - 1
  {
    var q := idx / d;
    assert idx == q * d + (d - 1);
    assert (q + 1 - k) * d == q * d + d - k * d;
    ModUnique(idx + d - k * d, q + 1 - k, d - 1, d);
  }

  /** With a divisor `d` of `n`, some string's probes stay in one residue class. */
  lemma {:induction false} ProbesStay(n: nat, d: nat, h: nat, i: nat)
    requires 1 < d && d < n - 1 && n > 3 && n % d == 0 && h == d - 1
    ensures Probe(h, n, i) % d == d - 1
  {
    hide Advance;
    ModUnique(h, 0, h, n);
    ModUnique(h, 0, h, d);
    ModUnique(h, 0, h, n - 2);
    if i > 0 {
      ProbesStay(n, d, h, i - 1);
      var idx := Probe(h, n, i - 1);
      var k := MultipleOfMod(n, d);
      StaysInClass(idx, d, 0);
      StaysInClass(idx, d, k);
      if idx + d < n {
        ModUnique(idx + d, 0, idx + d, n);
      } else {
        ModUnique(idx + d, 1, idx + d - n, n);
      }
    }
  }

  lemma ProperDivisor(n: nat, d: nat)
    requires 1 < d < n && n % d == 0
    ensures d < n - 1 && n > 3
  {
    var k := MultipleOfMod(n, d);
    assert k <= 1 ==> k * d <= d;
    assert k >= 2 ==> k * d >= 2 * d;
  }

  ghost predicate Visits(h: nat, n: nat, slot: nat)
    requires n > 2
  {
    exists i: nat :: Probe(h, n, i) == slot
  }

  lemma CompositeMisses(n: nat, d: nat, h: nat)
    requires 1 < d && d < n - 1 && n > 3 && n % d == 0 && h == d - 1
    ensures !Visits(h, n, 0)
  {
    hide Probe;
    if Visits(h, n, 0) {
      var i: nat :| Probe(h, n, i) == 0;
      ProbesStay(n, d, h, i);
      ModUnique(0, 0, 0, d);
    }
  }

  lemma PrimeVisits(n: nat, h: nat, slot: nat)
    requires Prime(n) && n > 2 && slot < n
    ensures Visits(h, n, slot)
  {
    var i := ProbesCover(h, n, slot);
  }

  lemma Cofactor(n: nat, d: nat) returns (k: nat)
    requires 1 < d < n && n % d == 0
    ensures n == k * d && 1 < k < n && n % k == 0
  {
    k := MultipleOfMod(n, d);
    FactorBounds(k, d);
    FactorDivides(n, k, d);
  }

  lemma FactorDivides(n: int, k: nat, d: int)
    requires n == k * d && k > 0
    ensures n % k == 0
  {
    assert k * d == d * k;
    ModOfMultiple(d, k);
  }

  lemma FactorBounds(k: nat, d: nat)
    requires 1 < d < k * d
    ensures 1 < k < k * d
  {
    if k > 1 { assert k * d >= k * 2; }
  }

  lemma SquareBelow(a: nat, b: nat)
    requires a <= b
    ensures a * a <= a * b
  {
  }

  /** A size that is not prime has a divisor whose square is not greater. */
  lemma SmallDivisor(n: nat) returns (d: nat)
    requires n > 1 && !Prime(n)
    ensures 1 < d < n && n % d == 0 && d * d <= n
  {
    d :| 1 < d < n && n % d == 0;
    hide Prime;
    var k := Cofactor(n, d);
    SmallerFactor(k, d);
    if d > k { d := k; }
  }

  lemma SmallerFactor(k: nat, d: nat)
    ensures k <= d ==> k * k <= k * d
    ensures d <= k ==> d * d <= k * d
  {
    if k <= d { SquareBelow(k, d); } else { SquareBelow(d, k); }
  }
}
