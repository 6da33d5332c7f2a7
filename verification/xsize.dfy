/** Size arithmetic that saturates at SIZE_MAX, which stands for an overflow. */
module XSize {

  /** The largest `size_t` of a 64-bit system. */
  const SIZE_MAX: nat := 0xffff_ffff_ffff_ffff

  type Size = n: nat | n <= SIZE_MAX

  /** The sum of two sizes as the machine computes it. */
  function WrapAdd(a: Size, b: Size): Size { (a + b) % (SIZE_MAX + 1) }

  function Min(a: nat, b: nat): nat { if a <= b then a else b }

  function XSum(a: Size, b: Size): (r: Size)
    ensures r == Min(a + b, SIZE_MAX)
  {
    var sum := WrapAdd(a, b);
    if sum >= a then sum else SIZE_MAX
  }

  function XSum4(a: Size, b: Size, c: Size, d: Size): (r: Size)
    ensures r == Min(a + b + c + d, SIZE_MAX)
  {
    XSum(XSum(XSum(a, b), c), d)
  }

  function XMax(a: Size, b: Size): (r: Size)
    ensures r >= a && r >= b && (r == a || r == b)
  {
    if a >= b then a else b
  }

  lemma TimesBound(n: Size, elsize: nat)
    requires elsize > 0
    ensures n <= SIZE_MAX / elsize <==> n * elsize <= SIZE_MAX
  {
    var q := Quotient(elsize);
    if n <= q {
      Scaled(n, q, elsize);
    } else {
      Scaled(q + 1, n, elsize);
    }
  }

  lemma Quotient(elsize: nat) returns (q: nat)
    requires elsize > 0
    ensures q == SIZE_MAX / elsize && q * elsize <= SIZE_MAX < (q + 1) * elsize
  {
    q := SIZE_MAX / elsize;
    assert SIZE_MAX == q * elsize + SIZE_MAX % elsize;
    assert (q + 1) * elsize == q * elsize + elsize;
  }

  lemma Scaled(a: nat, b: nat, k: nat)
    requires a <= b
    ensures a * k <= b * k
  {
    assert b * k == a * k + (b - a) * k;
  }

  function XTimes(n: Size, elsize: nat): (r: Size)
    requires elsize > 0
    ensures r == Min(n * elsize, SIZE_MAX)
  {
    TimesBound(n, elsize);
    if n <= SIZE_MAX / elsize then n * elsize else SIZE_MAX
  }

  predicate Overflow(s: Size) { s == SIZE_MAX }
}
