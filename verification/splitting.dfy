/** How a file's missing ranges are cut into the ranges of parallel downloads. */
module Splitting {

  const SPLIT_MINIMUM_PART := 5120

  /** The bytes from `begin` up to, but not including, `end`. */
  datatype Piece = Piece(begin: int, end: int)

  function Length(p: Piece): int { p.end - p.begin }

  /** Index of the first longest piece. */
  function Largest(ps: seq<Piece>): (m: nat)
    requires ps != []
    ensures m < |ps|
    ensures forall i :: 0 <= i < |ps| ==> Length(ps[i]) <= Length(ps[m])
    ensures forall i :: 0 <= i < m ==> Length(ps[i]) < Length(ps[m])
  {
    if |ps| == 1 then 0
    else
      var m := Largest(ps[..|ps| - 1]);
      assert forall i :: 0 <= i < |ps| - 1 ==> ps[i] == ps[..|ps| - 1][i];
      if Length(ps[|ps| - 1]) > Length(ps[m]) then |ps| - 1 else m
  }

  lemma LargestUnique(ps: seq<Piece>, m: nat)
    requires m < |ps| && (forall i :: 0 <= i < |ps| ==> Length(ps[i]) <= Length(ps[m]))
    requires forall i :: 0 <= i < m ==> Length(ps[i]) < Length(ps[m])
    ensures Largest(ps) == m
  {
    var l := Largest(ps);
    assert Length(ps[l]) == Length(ps[m]);
  }

  /** Integer division of non-negative sizes. */
  function Share(t: int, d: int): int
    requires d > 0
  {
    t / d
  }

  /** Cuts the first `1/d` off piece `m`. */
  function Cut(ps: seq<Piece>, m: nat, d: int): seq<Piece>
    requires m < |ps| && d > 0
  {
    var at := ps[m].begin + Share(Length(ps[m]), d);
    ps[..m] + [Piece(ps[m].begin, at), Piece(at, ps[m].end)] + ps[m + 1..]
  }

  /** The splitting loop for `parts` requested parts. */
  function SplitAll(ps: seq<Piece>, parts: int): seq<Piece>
    requires ps != []
    decreases parts - |ps|
  {
    if parts <= |ps| || Length(ps[Largest(ps)]) < SPLIT_MINIMUM_PART then ps
    else SplitAll(Cut(ps, Largest(ps), parts - |ps| + 1), parts)
  }

  /** Moves the first boundary by a tenth of the first piece, if two pieces meet there. */
  function ShiftFirst(ps: seq<Piece>): seq<Piece>
    requires ps != []
  {
    if |ps| > 1 && ps[0].end == ps[1].begin then
      var at := ps[0].end + Share(Length(ps[0]), 10);
      [Piece(ps[0].begin, at), Piece(at, ps[1].end)] + ps[2..]
    else ps
  }

  // ----- Order and coverage -----

  /** Non-empty pieces in order that do not overlap. */
  ghost predicate Ordered(ps: seq<Piece>) {
    && (forall i :: 0 <= i < |ps| ==> ps[i].begin < ps[i].end)
    && (forall i :: 0 < i < |ps| ==> ps[i - 1].end <= ps[i].begin)
  }

  /** ... and no two of them meet. */
  ghost predicate Separated(ps: seq<Piece>) {
    Ordered(ps) && forall i :: 0 < i < |ps| ==> ps[i - 1].end < ps[i].begin
  }

  predicate Covers(ps: seq<Piece>, x: int) {
    exists i :: 0 <= i < |ps| && ps[i].begin <= x < ps[i].end
  }

  ghost predicate SameBytes(ps: seq<Piece>, qs: seq<Piece>) {
    forall x :: Covers(ps, x) <==> Covers(qs, x)
  }

  lemma ShareIsQuotient(t: int, d: int)
    requires d > 0
    ensures d * Share(t, d) <= t < d * Share(t, d) + d
  {
  }

  lemma QuotientBounds(t: int, d: int, q: int)
    requires 1 < d <= t && d * q <= t < d * q + d
    ensures 0 < q < t
  {
    assert q <= 0 ==> d * q <= 0;
    assert q >= t ==> d * q >= d * t >= 2 * t;
  }

  lemma ShareBounds(t: int, d: int)
    requires 1 < d <= t
    ensures 0 < Share(t, d) < t
  {
    hide Share;
    ShareIsQuotient(t, d);
    QuotientBounds(t, d, Share(t, d));
  }

  /** A cut leaves everything else alone and puts the boundary at one `d`-th of the piece, rounded down. */
  lemma CutMeaning(ps: seq<Piece>, m: nat, d: int)
    requires m < |ps| && d > 0
    ensures var qs := Cut(ps, m, d);
            && |qs| == |ps| + 1 && (forall i :: 0 <= i < m ==> qs[i] == ps[i])
            && (forall i :: m < i < |ps| ==> qs[i + 1] == ps[i])
            && qs[m].begin == ps[m].begin && qs[m].end == qs[m + 1].begin && qs[m + 1].end == ps[m].end
            && d * (qs[m].end - qs[m].begin) <= ps[m].end - ps[m].begin
            && ps[m].end - ps[m].begin < d * (qs[m].end - qs[m].begin) + d
  {
    hide Share;
    ShareIsQuotient(Length(ps[m]), d);
  }

  lemma CutOrdered(ps: seq<Piece>, m: nat, d: int)
    requires Ordered(ps) && m < |ps| && 1 < d <= Length(ps[m])
    ensures Ordered(Cut(ps, m, d)) && |Cut(ps, m, d)| == |ps| + 1
  {
    hide Share;
    ShareBounds(Length(ps[m]), d);
    var at := ps[m].begin + Share(Length(ps[m]), d);
    var qs := Cut(ps, m, d);
    assert forall i :: 0 <= i < m ==> qs[i] == ps[i];
    assert forall i :: m + 2 <= i < |qs| ==> qs[i] == ps[i - 1];
  }

  lemma CoversAppend(a: seq<Piece>, b: seq<Piece>, x: int)
    ensures Covers(a + b, x) <==> Covers(a, x) || Covers(b, x)
  {
    if Covers(a, x) {
      var i :| 0 <= i < |a| && a[i].begin <= x < a[i].end;
      assert (a + b)[i] == a[i];
    }
    if Covers(b, x) {
      var i :| 0 <= i < |b| && b[i].begin <= x < b[i].end;
      assert (a + b)[|a| + i] == b[i];
    }
  }

  lemma CoversPair(p: Piece, q: Piece, x: int)
    ensures Covers([p, q], x) <==> p.begin <= x < p.end || q.begin <= x < q.end
  {
    assert [p, q][0] == p && [p, q][1] == q;
  }

  lemma CutCovers(ps: seq<Piece>, m: nat, d: int, x: int)
    requires m < |ps| && 1 < d <= Length(ps[m])
    ensures Covers(ps, x) <==> Covers(Cut(ps, m, d), x)
  {
    hide Share, Covers;
    ShareBounds(Length(ps[m]), d);
    var at := ps[m].begin + Share(Length(ps[m]), d);
    var a, b, c := [Piece(ps[m].begin, at), Piece(at, ps[m].end)], ps[..m], ps[m + 1..];
    assert ps == b + [ps[m]] + c;
    CoversOne(ps[m], x);
    CoversPair(a[0], a[1], x);
    CoversAppend(b, [ps[m]], x);
    CoversAppend(b + [ps[m]], c, x);
    CoversAppend(b, a, x);
    CoversAppend(b + a, c, x);
  }

  lemma CoversOne(p: Piece, x: int)
    ensures Covers([p], x) <==> p.begin <= x < p.end
  {
    assert [p][0] == p;
  }

  /** No piece is asked for more cuts than it has bytes: checked on the first cut alone. */
  predicate Feasible(ps: seq<Piece>, parts: int)
    requires ps != []
  {
    var t := Length(ps[Largest(ps)]);
    parts <= |ps| || t < SPLIT_MINIMUM_PART || parts - |ps| + 1 <= t
  }

  lemma CutLength(ps: seq<Piece>, m: nat, d: int)
    requires m < |ps| && d > 0
    ensures |Cut(ps, m, d)| == |ps| + 1
    ensures Length(Cut(ps, m, d)[m]) == Share(Length(ps[m]), d)
    ensures Length(Cut(ps, m, d)[m + 1]) == Length(ps[m]) - Share(Length(ps[m]), d)
  {
    hide Share;
  }

  lemma CutFeasible(ps: seq<Piece>, parts: int)
    requires ps != [] && Feasible(ps, parts) && parts > |ps| && Length(ps[Largest(ps)]) >= SPLIT_MINIMUM_PART
    ensures Feasible(Cut(ps, Largest(ps), parts - |ps| + 1), parts)
  {
    hide Share, Cut, Dominates;
    var m, s := Largest(ps), parts - |ps|;
    var t := Length(ps[m]);
    CutLength(ps, m, s + 1);
    ShareBounds(t, s + 1);
    CutShares(t, s, 0);
    DominatesAtLeast(t - Share(t, s + 1), s - 1, Share(t, s + 1));
    assert Length(Cut(ps, m, s + 1)[m + 1]) >= s;
  }

  lemma DominatesAtLeast(t: int, s: int, l: int)
    requires Dominates(t, s, l) && s >= 0 && l > 0
    ensures t >= s + 1
  {
    assert (s + 1) * l >= s + 1;
  }

  ghost predicate HasEmpty(ps: seq<Piece>) {
    exists i :: 0 <= i < |ps| && Length(ps[i]) == 0
  }

  lemma {:induction false} EmptyStays(ps: seq<Piece>, parts: int)
    requires ps != [] && HasEmpty(ps)
    ensures HasEmpty(SplitAll(ps, parts))
    decreases parts - |ps|
  {
    var m, d := Largest(ps), parts - |ps| + 1;
    if !(parts <= |ps| || Length(ps[m]) < SPLIT_MINIMUM_PART) {
      var qs := Cut(ps, m, d);
      var i :| 0 <= i < |ps| && Length(ps[i]) == 0;
      assert Length(qs[if i < m then i else i + 1]) == 0;
      EmptyStays(qs, parts);
    }
  }

  /** Splitting keeps the pieces ordered, disjoint and non-empty exactly when the request is
      feasible, and then they hold exactly the same bytes. */
  lemma {:induction false} SplitKeeps(ps: seq<Piece>, parts: int)
    requires ps != [] && Ordered(ps)
    ensures Ordered(SplitAll(ps, parts)) <==> Feasible(ps, parts)
    ensures Feasible(ps, parts) ==> SameBytes(ps, SplitAll(ps, parts))
    decreases parts - |ps|
  {
    hide Ordered, Covers, Cut, HasEmpty, Share;
    var m, d := Largest(ps), parts - |ps| + 1;
    if !(parts <= |ps| || Length(ps[m]) < SPLIT_MINIMUM_PART) {
      var qs := Cut(ps, m, d);
      CutLength(ps, m, d);
      if d <= Length(ps[m]) {
        CutOrdered(ps, m, d);
        CutFeasible(ps, parts);
        SplitKeeps(qs, parts);
        forall x
          ensures Covers(ps, x) <==> Covers(SplitAll(ps, parts), x)
        {
          CutCovers(ps, m, d, x);
        }
      } else {
        ShareIsZero(Length(ps[m]), d);
        EmptyAt(qs, m);
        EmptyStays(qs, parts);
        EmptyNotOrdered(SplitAll(qs, parts));
      }
    }
  }

  lemma ShareIsZero(t: int, d: int)
    requires 0 <= t < d
    ensures Share(t, d) == 0
  {
  }

  lemma EmptyAt(ps: seq<Piece>, i: nat)
    requires i < |ps| && Length(ps[i]) == 0
    ensures HasEmpty(ps)
  {
  }

  lemma EmptyNotOrdered(ps: seq<Piece>)
    requires HasEmpty(ps)
    ensures !Ordered(ps)
  {
  }

  /** A request is feasible for all holes exactly if it is for no more parts than a piece that is cut has bytes
      at least. */
  lemma AlwaysFeasibleIff(parts: int)
    ensures parts <= 5120 <==> forall ps: seq<Piece> | ps != [] && Ordered(ps) :: Feasible(ps, parts)
  {
    if parts > SPLIT_MINIMUM_PART {
      var ps := [Piece(0, SPLIT_MINIMUM_PART)];
      assert Ordered(ps) && !Feasible(ps, parts);
    }
  }

  /** The requested number is reached unless every piece is too short to be cut. */
  lemma {:induction false} SplitReaches(ps: seq<Piece>, parts: int)
    requires ps != []
    ensures var qs := SplitAll(ps, parts);
            && |qs| >= |ps|
            && (|ps| <= parts ==> |qs| <= parts)
            && (|qs| < parts ==> forall i :: 0 <= i < |qs| ==> Length(qs[i]) < 5120)
    decreases parts - |ps|
  {
    if !(parts <= |ps| || Length(ps[Largest(ps)]) < SPLIT_MINIMUM_PART) {
      SplitReaches(Cut(ps, Largest(ps), parts - |ps| + 1), parts);
    }
  }

  // ----- A single hole is divided fairly -----

  /** All pieces but the last have `q` bytes or one more, and so has the last one for each of the `rest` parts that are
      still in it. */
  ghost predicate Fair(ps: seq<Piece>, q: int, rest: int) {
    && ps != [] && (forall i :: 0 <= i < |ps| - 1 ==> q <= Length(ps[i]) <= q + 1)
    && FairRest(Length(ps[|ps| - 1]), q, rest)
  }

  predicate FairRest(t: int, q: int, rest: int) { rest * q <= t <= rest * q + rest }

  lemma FairCut(t: int, q: int, rest: int)
    requires FairRest(t, q, rest) && rest >= 2
    ensures q <= Share(t, rest) <= q + 1 && FairRest(t - Share(t, rest), q, rest - 1)
  {
    hide Share;
    var s := Share(t, rest);
    ShareIsQuotient(t, rest);
    QuotientAtLeast(t, q, rest, s);
    QuotientAtMost(t, q, rest, s);
    assert (rest - 1) * q == rest * q - q;
    if s == q + 1 {
      assert rest * (q + 1) == rest * q + rest;
    }
  }

  lemma QuotientAtLeast(t: int, q: int, d: int, s: int)
    requires d > 0 && d * q <= t < d * s + d
    ensures q <= s
  {
    if s < q { NextMultiple(d, s, q); }
  }

  lemma QuotientAtMost(t: int, q: int, d: int, s: int)
    requires d > 0 && d * s <= t <= d * q + d
    ensures s <= q + 1
  {
    assert d * (q + 1) == d * q + d;
    if s > q + 1 { NextMultiple(d, q + 1, s); }
  }

  lemma FairRestLarge(t: int, q: int, rest: int)
    requires FairRest(t, q, rest) && rest >= 2 && q >= 1
    ensures t >= 2 * q
  {
    assert rest * q == 2 * q + (rest - 2) * q;
    assert (rest - 2) * q >= 0;
  }

  lemma {:induction false} SplitFair(ps: seq<Piece>, parts: int, q: int)
    requires |ps| <= parts && q >= 5120 && Fair(ps, q, parts - |ps| + 1)
    ensures |SplitAll(ps, parts)| == parts && Fair(SplitAll(ps, parts), q, 1)
    decreases parts - |ps|
  {
    hide Share, FairRest, Cut;
    if |ps| < parts {
      var n, rest := |ps|, parts - |ps| + 1;
      FairRestLarge(Length(ps[n - 1]), q, rest);
      LargestUnique(ps, n - 1);
      FairCut(Length(ps[n - 1]), q, rest);
      CutLength(ps, n - 1, rest);
      CutFront(ps, n - 1, rest);
      SplitFair(Cut(ps, n - 1, rest), parts, q);
    }
  }

  lemma CutFront(ps: seq<Piece>, m: nat, d: int)
    requires m < |ps| && d > 0
    ensures forall i :: 0 <= i < m ==> Cut(ps, m, d)[i] == ps[i]
  {
    hide Share;
  }

  /** A single hole with at least 5120 bytes for each part is divided into exactly these parts, and no two of them
      differ by more than one byte: each has the quotient, or one byte more. */
  lemma OneHoleFair(hole: Piece, parts: int, q: int)
    requires parts >= 1 && q >= 5120 && parts * q <= hole.end - hole.begin < parts * q + parts
    ensures var qs := SplitAll([hole], parts);
            |qs| == parts && forall i :: 0 <= i < parts ==> q <= qs[i].end - qs[i].begin <= q + 1
  {
    assert Fair([hole], q, parts);
    SplitFair([hole], parts, q);
    var last := Length(SplitAll([hole], parts)[parts - 1]);
    assert 1 * q <= last <= 1 * q + 1;
  }

  // ----- Balance: why the first boundary may be moved -----

  /** Piece `i` and its successor come from the same hole. */
  predicate Meets(ps: seq<Piece>, i: int) { 0 <= i && i + 1 < |ps| && ps[i].end == ps[i + 1].begin }

  /** What is left of a hole is at least `s + 1` times each piece cut from it, and the pieces of
      a hole do not shrink from left to right. */
  ghost predicate Balanced(ps: seq<Piece>, s: int) {
    forall i :: Meets(ps, i) ==>
      if Meets(ps, i + 1) then Length(ps[i + 1]) >= Length(ps[i])
      else Dominates(Length(ps[i + 1]), s, Length(ps[i]))
  }

  predicate Dominates(t: int, s: int, l: int) { t >= (s + 1) * l }

  lemma DominatesFacts(t: int, s: int, l: int)
    requires Dominates(t, s, l) && s >= 0 && l > 0
    ensures t >= l && (s >= 1 ==> t > l && Dominates(t, s - 1, l))
  {
    assert (s + 1) * l == s * l + l;
    assert s * l >= 0 && (s >= 1 ==> s * l >= l);
  }

  lemma SeparatedBalanced(ps: seq<Piece>, s: int)
    requires Separated(ps)
    ensures Balanced(ps, s)
  {
    forall i | 0 <= i && i + 1 < |ps|
      ensures !Meets(ps, i)
    {
      assert ps[i + 1 - 1].end < ps[i + 1].begin;
    }
  }

  /** A piece that was cut off is never the largest while splits are left. */
  lemma {:induction false} CutOffIsSmaller(ps: seq<Piece>, s: int, i: nat) returns (j: nat)
    requires Ordered(ps) && Balanced(ps, s) && s >= 1 && Meets(ps, i)
    ensures j < |ps| && Length(ps[j]) > Length(ps[i])
    decreases |ps| - i
  {
    if Meets(ps, i + 1) {
      j := CutOffIsSmaller(ps, s, i + 1);
    } else {
      j := i + 1;
      DominatesFacts(Length(ps[j]), s, Length(ps[i]));
    }
  }

  lemma QuotientDominates(t: int, s: int, p: int, q: int)
    requires s >= 1 && (s + 1) * q <= t < (s + 1) * q + (s + 1)
    ensures Dominates(t - q, s - 1, q)
    ensures Dominates(t, s, p) ==> q >= p
  {
    assert (s + 1) * q == s * q + q;
    if q < p { NextMultiple(s + 1, q, p); }
  }

  lemma NextMultiple(d: int, q: int, p: int)
    requires d > 0 && q < p
    ensures d * q + d <= d * p
  {
    var k := p - q - 1;
    assert d * p == d * q + d + d * k;
    assert d * k >= 0;
  }

  lemma CutShares(t: int, s: int, p: int)
    requires s >= 1 && t >= s + 1
    ensures Dominates(t - Share(t, s + 1), s - 1, Share(t, s + 1))
    ensures Dominates(t, s, p) ==> Share(t, s + 1) >= p
  {
    hide Share, Dominates;
    ShareIsQuotient(t, s + 1);
    QuotientDominates(t, s, p, Share(t, s + 1));
  }

  lemma MeetsCut(ps: seq<Piece>, m: nat, d: int, i: int)
    requires m < |ps| && d > 0
    ensures |Cut(ps, m, d)| == |ps| + 1
    ensures 0 <= i < m ==> Cut(ps, m, d)[i] == ps[i]
    ensures m + 1 < i <= |ps| ==> Cut(ps, m, d)[i] == ps[i - 1]
    ensures Length(Cut(ps, m, d)[m]) == Share(Length(ps[m]), d)
    ensures Length(Cut(ps, m, d)[m + 1]) == Length(ps[m]) - Share(Length(ps[m]), d)
    ensures i < m ==> (Meets(Cut(ps, m, d), i) <==> Meets(ps, i))
    ensures i == m ==> Meets(Cut(ps, m, d), i)
    ensures i > m ==> (Meets(Cut(ps, m, d), i) <==> Meets(ps, i - 1))
  {
    hide Share;
    var qs := Cut(ps, m, d);
    assert forall j :: 0 <= j < m ==> qs[j] == ps[j];
    assert forall j :: m + 2 <= j < |qs| ==> qs[j] == ps[j - 1];
  }

  /** The largest piece is what is left of a hole. */
  lemma LargestIsTail(ps: seq<Piece>, s: int)
    requires ps != [] && Ordered(ps) && Balanced(ps, s) && s >= 1
    ensures !Meets(ps, Largest(ps))
  {
    hide Balanced, Ordered;
    if Meets(ps, Largest(ps)) {
      var j := CutOffIsSmaller(ps, s, Largest(ps));
    }
  }

  ghost predicate BalancedAt(ps: seq<Piece>, s: int, i: int)
    requires Meets(ps, i)
  {
    if Meets(ps, i + 1) then Length(ps[i + 1]) >= Length(ps[i])
    else Dominates(Length(ps[i + 1]), s, Length(ps[i]))
  }

  /** Cutting the tail `m` keeps the balance at every piece `i`. */
  lemma CutBalancedAt(ps: seq<Piece>, s: int, m: nat, i: int)
    requires Ordered(ps) && Balanced(ps, s) && 1 <= s && m < |ps| && !Meets(ps, m) && Length(ps[m]) >= s + 1
    requires Meets(Cut(ps, m, s + 1), i)
    ensures BalancedAt(Cut(ps, m, s + 1), s - 1, i)
  {
    hide Share, Cut, Dominates;
    var t := Length(ps[m]);
    MeetsCut(ps, m, s + 1, i);
    MeetsCut(ps, m, s + 1, i + 1);
    if i == m - 1 {
      CutShares(t, s, Length(ps[i]));
    } else if i == m {
      CutShares(t, s, 0);
    } else {
      var k := if i < m then i else i - 1;
      MeetsCut(ps, m, s + 1, k + 1);
      assert Meets(ps, k) && Length(ps[k]) > 0;
      if !Meets(ps, k + 1) {
        DominatesFacts(Length(ps[k + 1]), s, Length(ps[k]));
      }
    }
  }

  lemma CutBalanced(ps: seq<Piece>, s: int)
    requires ps != [] && Ordered(ps) && Balanced(ps, s) && 1 <= s < Length(ps[Largest(ps)])
    ensures Balanced(Cut(ps, Largest(ps), s + 1), s - 1)
  {
    hide Ordered, Cut, Dominates;
    var m := Largest(ps);
    LargestIsTail(ps, s);
    var qs, s' := Cut(ps, m, s + 1), s - 1;
    forall i | Meets(qs, i)
      ensures BalancedAt(qs, s', i)
    {
      CutBalancedAt(ps, s, m, i);
    }
  }

  /** Splits left when `n` pieces are there. */
  function SplitsLeft(parts: int, n: nat): nat { if parts > n then parts - n else 0 }

  lemma {:induction false} SplitBalanced(ps: seq<Piece>, parts: int) returns (s: nat)
    requires ps != [] && Ordered(ps) && Feasible(ps, parts)
    requires Balanced(ps, SplitsLeft(parts, |ps|))
    ensures Balanced(SplitAll(ps, parts), s)
    decreases parts - |ps|
  {
    hide Balanced, Ordered, Cut;
    var m := Largest(ps);
    s := SplitsLeft(parts, |ps|);
    if !(parts <= |ps| || Length(ps[m]) < SPLIT_MINIMUM_PART) {
      CutLength(ps, m, s + 1);
      CutOrdered(ps, m, s + 1);
      CutBalanced(ps, s);
      CutFeasible(ps, parts);
      s := SplitBalanced(Cut(ps, m, s + 1), parts);
    }
  }

  lemma ShiftCovers(ps: seq<Piece>, x: int)
    requires ps != [] && Ordered(ps) && Ordered(ShiftFirst(ps))
    ensures Covers(ps, x) <==> Covers(ShiftFirst(ps), x)
  {
    hide Covers, Share;
    if Meets(ps, 0) {
      var qs := ShiftFirst(ps);
      assert ps == [ps[0], ps[1]] + ps[2..] && qs == [qs[0], qs[1]] + ps[2..];
      CoversPair(ps[0], ps[1], x);
      CoversPair(qs[0], qs[1], x);
      CoversAppend([ps[0], ps[1]], ps[2..], x);
      CoversAppend([qs[0], qs[1]], ps[2..], x);
    }
  }

  lemma TenthBounds(l: int)
    requires l > 0
    ensures 0 <= Share(l, 10) < l
  {
  }

  /** When the first two pieces meet, their boundary moves by a tenth of the first one, rounded down; nothing else
      changes. */
  lemma ShiftMeaning(ps: seq<Piece>)
    requires ps != []
    ensures var qs := ShiftFirst(ps);
            && |qs| == |ps| && (forall i :: 2 <= i < |ps| ==> qs[i] == ps[i])
            && qs[0].begin == ps[0].begin && (|ps| > 1 ==> qs[1].end == ps[1].end)
            && (|ps| > 1 && ps[0].end == ps[1].begin ==>
                  && qs[0].end == qs[1].begin
                  && 10 * (qs[0].end - ps[0].end) <= ps[0].end - ps[0].begin < 10 * (qs[0].end - ps[0].end) + 10)
            && (!(|ps| > 1 && ps[0].end == ps[1].begin) ==> qs == ps)
  {
    hide Share;
    ShareIsQuotient(Length(ps[0]), 10);
  }

  lemma ShiftOrdered(ps: seq<Piece>, s: int)
    requires ps != [] && Ordered(ps) && Balanced(ps, s) && s >= 0
    ensures Ordered(ShiftFirst(ps)) && |ShiftFirst(ps)| == |ps|
  {
    hide Dominates, Share;
    if Meets(ps, 0) {
      TenthBounds(Length(ps[0]));
      assert Length(ps[1]) >= Length(ps[0]) by {
        if !Meets(ps, 1) {
          DominatesFacts(Length(ps[1]), s, Length(ps[0]));
        }
      }
      var qs := ShiftFirst(ps);
      assert forall i :: 2 <= i < |ps| ==> qs[i] == ps[i];
    }
  }

  /** From separated holes, splitting and then moving the first boundary gives ordered,
      disjoint, non-empty pieces of exactly the missing bytes. */
  lemma PreparedPieces(holes: seq<Piece>, parts: int)
    requires holes != [] && Separated(holes) && Feasible(holes, parts)
    ensures SplitAll(holes, parts) != []
    ensures var ps := ShiftFirst(SplitAll(holes, parts));
            Ordered(ps) && SameBytes(holes, ps) && |ps| == |SplitAll(holes, parts)|
  {
    hide Balanced, Ordered, Covers, ShiftFirst;
    var qs := SplitAll(holes, parts);
    SplitReaches(holes, parts);
    assert Ordered(holes) by { SeparatedOrdered(holes); }
    SeparatedBalanced(holes, SplitsLeft(parts, |holes|));
    SplitKeeps(holes, parts);
    var s := SplitBalanced(holes, parts);
    ShiftOrdered(qs, s);
    forall x
      ensures Covers(holes, x) <==> Covers(ShiftFirst(qs), x)
    {
      ShiftCovers(qs, x);
    }
  }

  lemma SeparatedOrdered(ps: seq<Piece>)
    requires Separated(ps)
    ensures Ordered(ps)
  {
  }
}
