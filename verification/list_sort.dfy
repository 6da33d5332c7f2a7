/** Why moving the first descent to the end and starting over sorts a list. */
module ListSort {

  /** `cmp(x, y) <= 0` is a total preorder on the elements of `s`. */
  ghost predicate Preorder<T>(cmp: (T, T) -> int, s: seq<T>) {
    && (forall x, y {:trigger cmp(x, y)} :: x in s && y in s ==> cmp(x, y) <= 0 || cmp(y, x) <= 0)
    && (forall x, y, z {:trigger cmp(x, y), cmp(y, z)} ::
          x in s && y in s && z in s && cmp(x, y) <= 0 && cmp(y, z) <= 0 ==> cmp(x, z) <= 0)
  }

  ghost predicate Sorted<T>(cmp: (T, T) -> int, s: seq<T>) {
    forall i, j :: 0 <= i < j < |s| ==> cmp(s[i], s[j]) <= 0
  }

  /** The first `n` elements have no descent. */
  ghost predicate Ascending<T>(cmp: (T, T) -> int, s: seq<T>, n: nat) {
    forall i :: 0 <= i && i + 1 < n && i + 1 < |s| ==> cmp(s[i], s[i + 1]) <= 0
  }

  lemma {:induction false} AscendingPair<T>(cmp: (T, T) -> int, s: seq<T>, i: nat, j: nat)
    requires Preorder(cmp, s) && Ascending(cmp, s, |s|) && i < j < |s|
    ensures cmp(s[i], s[j]) <= 0
    decreases j
  {
    assert cmp(s[j - 1], s[j - 1 + 1]) <= 0;
    if i < j - 1 {
      AscendingPair(cmp, s, i, j - 1);
    }
  }

  lemma AscendingIsSorted<T>(cmp: (T, T) -> int, s: seq<T>)
    requires Preorder(cmp, s) && Ascending(cmp, s, |s|)
    ensures Sorted(cmp, s)
  {
    forall i, j | 0 <= i < j < |s|
      ensures cmp(s[i], s[j]) <= 0
    {
      AscendingPair(cmp, s, i, j);
    }
  }

  ghost predicate Within<T>(t: seq<T>, s: seq<T>) {
    forall i :: 0 <= i < |t| ==> t[i] in s
  }

  lemma PermutationWithin<T>(t: seq<T>, s: seq<T>)
    requires multiset(t) == multiset(s)
    ensures Within(t, s)
  {
    forall i | 0 <= i < |t|
      ensures t[i] in s
    {
      assert t[i] in multiset(t);
    }
  }

  function RemoveAt<T>(s: seq<T>, k: nat): seq<T>
    requires k < |s|
  {
    s[..k] + s[k + 1..]
  }

  function MoveToEnd<T>(s: seq<T>, k: nat): seq<T>
    requires k < |s|
  {
    RemoveAt(s, k) + [s[k]]
  }

  lemma MoveToEndPermutes<T>(s: seq<T>, k: nat)
    requires k < |s|
    ensures multiset(MoveToEnd(s, k)) == multiset(s) && |MoveToEnd(s, k)| == |s|
  {
    assert s == s[..k] + [s[k]] + s[k + 1..];
  }

  // ----- The measure -----

  function CountAbove<T>(cmp: (T, T) -> int, s: seq<T>, r: T): (n: nat)
    ensures n <= |s|
  {
    if s == [] then 0
    else CountAbove(cmp, s[..|s| - 1], r) + if cmp(s[|s| - 1], r) > 0 then 1 else 0
  }

  /** How many elements above `r` come before the last element that is not above `r`. */
  function Misplaced<T>(cmp: (T, T) -> int, s: seq<T>, r: T): (n: nat)
    ensures n <= |s|
  {
    if s == [] then 0
    else if cmp(s[|s| - 1], r) <= 0 then CountAbove(cmp, s, r)
    else Misplaced(cmp, s[..|s| - 1], r)
  }

  lemma {:induction false} CountAboveAppend<T>(cmp: (T, T) -> int, a: seq<T>, b: seq<T>, r: T)
    ensures CountAbove(cmp, a + b, r) == CountAbove(cmp, a, r) + CountAbove(cmp, b, r)
  {
    if b == [] {
      assert a + b == a;
    } else {
      assert (a + b)[..|a + b| - 1] == a + b[..|b| - 1];
      CountAboveAppend(cmp, a, b[..|b| - 1], r);
    }
  }

  /** Taking away an element above `r` never misplaces more; it helps when an element that is
      not above `r` comes later. */
  lemma {:induction false} MisplacedRemove<T>(cmp: (T, T) -> int, a: seq<T>, x: T, b: seq<T>, r: T)
    requires cmp(x, r) > 0
    ensures Misplaced(cmp, a + b, r) <= Misplaced(cmp, a + [x] + b, r)
    ensures (exists y :: y in b && cmp(y, r) <= 0) ==> Misplaced(cmp, a + b, r) < Misplaced(cmp, a + [x] + b, r)
  {
    var s := a + [x] + b;
    if b == [] {
      assert a + b == a && s[..|s| - 1] == a;
    } else {
      var init := b[..|b| - 1];
      assert (a + b)[..|a + b| - 1] == a + init;
      assert s[..|s| - 1] == a + [x] + init;
      if cmp(b[|b| - 1], r) <= 0 {
        CountAboveAppend(cmp, a, b, r);
        CountAboveAppend(cmp, a + [x], b, r);
        assert (a + [x])[..|a|] == a;
      } else {
        MisplacedRemove(cmp, a, x, init, r);
        assert b == init + [b[|b| - 1]];
      }
    }
  }

  lemma MoveToEndParts<T>(s: seq<T>, k: nat)
    requires k < |s|
    ensures var t, a, b := MoveToEnd(s, k), s[..k], s[k + 1..];
            |t| == |s| && t[..|t| - 1] == a + b && t[|t| - 1] == s[k] && s == a + [s[k]] + b
    ensures k + 1 < |s| ==> s[k + 1] in s[k + 1..]
  {
    assert k + 1 < |s| ==> s[k + 1..][0] == s[k + 1];
  }

  lemma MisplacedMove<T>(cmp: (T, T) -> int, s: seq<T>, k: nat, r: T)
    requires k < |s| && cmp(s[k], r) > 0
    ensures Misplaced(cmp, MoveToEnd(s, k), r) <= Misplaced(cmp, s, r)
    ensures k + 1 < |s| && cmp(s[k + 1], r) <= 0 ==> Misplaced(cmp, MoveToEnd(s, k), r) < Misplaced(cmp, s, r)
  {
    hide MoveToEnd, Misplaced;
    MoveToEndParts(s, k);
    LastAbove(cmp, MoveToEnd(s, k), r);
    MisplacedRemove(cmp, s[..k], s[k], s[k + 1..], r);
  }

  lemma LastAbove<T>(cmp: (T, T) -> int, t: seq<T>, r: T)
    requires t != [] && cmp(t[|t| - 1], r) > 0
    ensures Misplaced(cmp, t, r) == Misplaced(cmp, t[..|t| - 1], r)
  {
  }

  function Power(b: nat, n: nat): nat { if n == 0 then 1 else b * Power(b, n - 1) }

  /** The misplacements for the elements of `order`, read as the digits of a number in base
      `|s| + 1`, the first one counting most. */
  function Measure<T>(cmp: (T, T) -> int, s: seq<T>, order: seq<T>): nat {
    if order == [] then 0
    else Misplaced(cmp, s, order[0]) * Power(|s| + 1, |order| - 1) + Measure(cmp, s, order[1..])
  }

  lemma AboveChain<T>(cmp: (T, T) -> int, s: seq<T>, x: T, y: T, z: T)
    requires Preorder(cmp, s) && x in s && y in s && z in s && cmp(x, y) > 0
    ensures z == y || cmp(z, y) <= 0 ==> cmp(x, z) > 0
    ensures cmp(y, y) <= 0 && cmp(y, x) <= 0
  {
    assert cmp(y, y) <= 0;
  }

  lemma SortedParts<T>(cmp: (T, T) -> int, s: seq<T>, i: nat)
    requires Sorted(cmp, s) && s != []
    ensures 0 < i < |s| ==> cmp(s[0], s[i]) <= 0
    ensures Sorted(cmp, s[1..])
  {
  }

  lemma DigitBound(d: nat, n: nat, p: nat, v: nat)
    requires d <= n && v < p
    ensures d * p + v < (n + 1) * p
  {
    assert d * p <= n * p;
  }

  lemma DigitDrops(d': nat, d: nat, p: nat, v': nat, v: nat)
    requires d' < d && v' < p
    ensures d' * p + v' < d * p + v
  {
    assert (d' + 1) * p <= d * p;
  }

  lemma DigitStays(d': nat, d: nat, p: nat, v': nat, v: nat)
    requires d' <= d && v' < v
    ensures d' * p + v' < d * p + v
  {
    assert d' * p <= d * p;
  }

  lemma {:induction false} MeasureBound<T>(cmp: (T, T) -> int, s: seq<T>, order: seq<T>)
    ensures Measure(cmp, s, order) < Power(|s| + 1, |order|)
  {
    if order != [] {
      MeasureBound(cmp, s, order[1..]);
      DigitBound(Misplaced(cmp, s, order[0]), |s|, Power(|s| + 1, |order| - 1), Measure(cmp, s, order[1..]));
    }
  }

  /** Moving the first descent to the end makes the measure smaller, although it may create
      inversions: it can only misplace elements for ranks at or above its own. */
  lemma {:induction false} MoveDecreases<T>(cmp: (T, T) -> int, s: seq<T>, k: nat, order: seq<T>)
    requires k + 1 < |s| && cmp(s[k], s[k + 1]) > 0
    requires Preorder(cmp, s) && Sorted(cmp, order) && s[k + 1] in order && Within(order, s)
    ensures Measure(cmp, MoveToEnd(s, k), order) < Measure(cmp, s, order)
  {
    hide Misplaced, MoveToEnd, Preorder, Sorted;
    var t, r, rest := MoveToEnd(s, k), order[0], order[1..];
    var d, d', p := Misplaced(cmp, s, r), Misplaced(cmp, t, r), Power(|s| + 1, |rest|);
    MoveToEndPermutes(s, k);
    assert r in order && r in s && s[k] in s && s[k + 1] in s;
    if r == s[k + 1] {
      AboveChain(cmp, s, s[k], r, r);
      MisplacedMove(cmp, s, k, r);
      MeasureBound(cmp, t, rest);
      DigitDrops(d', d, p, Measure(cmp, t, rest), Measure(cmp, s, rest));
    } else {
      var i :| 0 <= i < |order| && order[i] == s[k + 1];
      assert rest[i - 1] == s[k + 1];
      SortedParts(cmp, order, i);
      AboveChain(cmp, s, s[k], s[k + 1], r);
      MisplacedMove(cmp, s, k, r);
      MoveDecreases(cmp, s, k, rest);
      DigitStays(d', d, p, Measure(cmp, t, rest), Measure(cmp, s, rest));
    }
  }

  // ----- A sorted arrangement to measure against -----

  function Insert<T>(cmp: (T, T) -> int, x: T, s: seq<T>): seq<T> {
    if s == [] then [x]
    else if cmp(x, s[0]) <= 0 then [x] + s
    else [s[0]] + Insert(cmp, x, s[1..])
  }

  function Arrange<T>(cmp: (T, T) -> int, s: seq<T>): seq<T> {
    if s == [] then [] else Insert(cmp, s[0], Arrange(cmp, s[1..]))
  }

  lemma {:induction false} InsertPermutes<T>(cmp: (T, T) -> int, x: T, s: seq<T>)
    ensures multiset(Insert(cmp, x, s)) == multiset([x] + s)
  {
    if s != [] {
      InsertPermutes(cmp, x, s[1..]);
      assert s == [s[0]] + s[1..];
    }
  }

  lemma PreorderWithin<T>(cmp: (T, T) -> int, s: seq<T>, t: seq<T>)
    requires Preorder(cmp, s) && (forall x :: x in t ==> x in s)
    ensures Preorder(cmp, t)
  {
  }

  lemma Transitive<T>(cmp: (T, T) -> int, s: seq<T>, x: T, y: T, z: T)
    requires Preorder(cmp, s) && x in s && y in s && z in s && cmp(x, y) <= 0 && cmp(y, z) <= 0
    ensures cmp(x, z) <= 0
  {
  }

  lemma SortedCons<T>(cmp: (T, T) -> int, x: T, s: seq<T>)
    requires Sorted(cmp, s) && (forall y :: y in s ==> cmp(x, y) <= 0)
    ensures Sorted(cmp, [x] + s)
  {
  }

  lemma EmptySorted<T>(cmp: (T, T) -> int, s: seq<T>)
    requires s == []
    ensures Sorted(cmp, s)
  {
  }

  lemma {:induction false} InsertSorted<T>(cmp: (T, T) -> int, x: T, s: seq<T>)
    requires Preorder(cmp, [x] + s) && Sorted(cmp, s)
    ensures Sorted(cmp, Insert(cmp, x, s))
  {
    hide Preorder, Sorted;
    var all := [x] + s;
    if s == [] {
      EmptySorted(cmp, s);
      SortedCons(cmp, x, s);
      assert [x] + s == [x];
    } else if cmp(x, s[0]) <= 0 {
      InsertFirst(cmp, x, s);
    } else {
      assert s == [s[0]] + s[1..];
      SortedParts(cmp, s, 0);
      PreorderWithin(cmp, all, [x] + s[1..]);
      InsertSorted(cmp, x, s[1..]);
      InsertLater(cmp, x, s);
    }
  }

  lemma InsertFirst<T>(cmp: (T, T) -> int, x: T, s: seq<T>)
    requires Preorder(cmp, [x] + s) && Sorted(cmp, s) && s != [] && cmp(x, s[0]) <= 0
    ensures Sorted(cmp, [x] + s)
  {
    hide Preorder, Sorted;
    forall y | y in s
      ensures cmp(x, y) <= 0
    {
      var i :| 0 <= i < |s| && s[i] == y;
      SortedParts(cmp, s, i);
      if i > 0 {
        Transitive(cmp, [x] + s, x, s[0], y);
      }
    }
    SortedCons(cmp, x, s);
  }

  lemma InsertLater<T>(cmp: (T, T) -> int, x: T, s: seq<T>)
    requires Preorder(cmp, [x] + s) && Sorted(cmp, s) && s != [] && cmp(x, s[0]) > 0
    requires Sorted(cmp, Insert(cmp, x, s[1..]))
    ensures Sorted(cmp, [s[0]] + Insert(cmp, x, s[1..]))
  {
    hide Preorder, Sorted, Insert;
    var t := Insert(cmp, x, s[1..]);
    InsertPermutes(cmp, x, s[1..]);
    AboveChain(cmp, [x] + s, x, s[0], s[0]);
    forall y | y in t
      ensures cmp(s[0], y) <= 0
    {
      assert y in multiset([x] + s[1..]);
      if y in s[1..] {
        var i :| 0 <= i < |s[1..]| && s[1..][i] == y;
        SortedParts(cmp, s, i + 1);
      }
    }
    SortedCons(cmp, s[0], t);
  }

  lemma {:induction false} ArrangeCorrect<T>(cmp: (T, T) -> int, s: seq<T>)
    requires Preorder(cmp, s)
    ensures Sorted(cmp, Arrange(cmp, s)) && multiset(Arrange(cmp, s)) == multiset(s)
  {
    hide Preorder, Sorted, Insert;
    if s == [] {
      EmptySorted(cmp, s);
    } else {
      var t := Arrange(cmp, s[1..]);
      PreorderWithin(cmp, s, s[1..]);
      ArrangeCorrect(cmp, s[1..]);
      assert s == [s[0]] + s[1..];
      forall y | y in [s[0]] + t
        ensures y in s
      {
        assert y == s[0] || y in multiset(t);
      }
      PreorderWithin(cmp, s, [s[0]] + t);
      InsertSorted(cmp, s[0], t);
      InsertPermutes(cmp, s[0], t);
    }
  }

  lemma PreorderPermutes<T>(cmp: (T, T) -> int, s: seq<T>, t: seq<T>)
    requires Preorder(cmp, s) && multiset(t) == multiset(s)
    ensures Preorder(cmp, t)
  {
    PermutationWithin(t, s);
    PreorderWithin(cmp, s, t);
  }
}
