/** `tDownload::prepare_splits` on its linked lists: the holes of the file are cut in place and
    handed to a chain of parts. */
module Dlist {
  import opened Splitting

  class Segment {
    var begin: int
    var end: int
    var offset_in_file: int
    var next: Segment?

    constructor (begin: int, end: int, next: Segment?)
      ensures this.begin == begin && this.end == end && this.next == next
    {
      this.begin, this.end, this.offset_in_file, this.next := begin, end, 0, next;
    }
  }

  /** The split information of a download and of the parts chained behind it. */
  class SplitInfo {
    var NumOfParts: int
    var thread_num: int
    var FirstByte: int
    var LastByte: int
    var prepared: bool
    var next_part: SplitInfo?

    constructor ()
      ensures next_part == null
    {
      NumOfParts, thread_num, FirstByte, LastByte, prepared, next_part := 0, 0, 0, 0, false, null;
    }
  }

  /** `list` is a linked list of holes that denotes `ps`. */
  ghost predicate Holes(list: seq<Segment>, ps: seq<Piece>)
    reads list
  {
    && 0 < |list| == |ps|
    && (forall i, j :: 0 <= i < j < |list| ==> list[i] != list[j])
    && (forall i {:trigger list[i]} :: 0 <= i < |list| ==> list[i].begin == ps[i].begin && list[i].end == ps[i].end)
    && (forall i {:trigger list[i].next} :: 0 <= i < |list| ==>
          list[i].next == if i + 1 < |list| then list[i + 1] else null)
  }

  method FindLargest(holes: Segment, ghost list: seq<Segment>, ghost ps: seq<Piece>) returns (largest: Segment)
    requires Holes(list, ps) && list[0] == holes
    ensures largest == list[Largest(ps)]
  {
    largest := holes;
    var tmp := holes.next;
    ghost var m, k := 0, 1;
    while tmp != null
      invariant m < k <= |list| && largest == list[m]
      invariant tmp == if k < |list| then list[k] else null
      invariant forall i :: 0 <= i < k ==> Length(ps[i]) <= Length(ps[m])
      invariant forall i :: 0 <= i < m ==> Length(ps[i]) < Length(ps[m])
      decreases |list| - k
    {
      if tmp.end - tmp.begin > largest.end - largest.begin {
        largest := tmp;
        m := k;
      }
      tmp := tmp.next;
      k := k + 1;
    }
    LargestUnique(ps, m);
  }

  /** Cuts `largest` after its first `1/d` and links the rest behind it. */
  lemma CutPieces(ps: seq<Piece>, m: nat, d: int)
    requires m < |ps| && d > 0
    ensures var qs, at := Cut(ps, m, d), ps[m].begin + Share(Length(ps[m]), d);
            && |qs| == |ps| + 1 && qs[m] == Piece(ps[m].begin, at) && qs[m + 1] == Piece(at, ps[m].end)
            && (forall i :: 0 <= i < m ==> qs[i] == ps[i])
            && (forall i :: m + 1 < i < |qs| ==> qs[i] == ps[i - 1])
  {
    hide Share;
  }

  method CutSegment(largest: Segment, d: int, ghost m: nat, ghost list: seq<Segment>, ghost ps: seq<Piece>)
    returns (tmp: Segment)
    requires Holes(list, ps) && m < |list| && list[m] == largest && d > 0
    modifies largest
    ensures fresh(tmp) && Holes(list[..m + 1] + [tmp] + list[m + 1..], Cut(ps, m, d))
    ensures largest.offset_in_file == old(largest.offset_in_file)
  {
    hide Share, Cut;
    CutPieces(ps, m, d);
    tmp := new Segment(largest.begin + Share(largest.end - largest.begin, d), largest.end, largest.next);
    largest.end := tmp.begin;
    largest.next := tmp;
    ghost var list' := list[..m + 1] + [tmp] + list[m + 1..];
    assert forall i :: 0 <= i <= m ==> list'[i] == list[i];
    assert forall i :: m + 1 < i < |list'| ==> list'[i] == list[i - 1];
    ghost var qs := Cut(ps, m, d);
    assert |list'| == |qs|;
    assert list'[m + 1] == tmp && list'[m] == largest;
    assert forall i {:trigger list'[i].next} :: 0 <= i < |list'| ==>
      list'[i].next == if i + 1 < |list'| then list'[i + 1] else null;
  }

  method CountPiece(holes: Segment, ghost list: seq<Segment>, ghost ps: seq<Piece>)
    requires Holes(list, ps) && list[0] == holes
    modifies holes`offset_in_file
    ensures Holes(list, ps) && holes.offset_in_file == old(holes.offset_in_file) + 1
  {
    holes.offset_in_file := holes.offset_in_file + 1;
  }

  /** One turn of the splitting loop; false if the largest piece is too short. */
  method SplitOnce(holes: Segment, parts: int, ghost list: seq<Segment>, ghost ps: seq<Piece>)
    returns (cut: bool, ghost list': seq<Segment>)
    requires Holes(list, ps) && list[0] == holes && holes.offset_in_file == |list| < parts
    modifies list
    ensures cut <==> Length(ps[Largest(ps)]) >= SPLIT_MINIMUM_PART
    ensures cut ==> Holes(list', Cut(ps, Largest(ps), parts - |ps| + 1))
    ensures !cut ==> list' == list && Holes(list, ps)
    ensures list'[0] == holes && holes.offset_in_file == |list'|
    ensures forall i :: 0 <= i < |list'| ==> list'[i] in list || fresh(list'[i])
  {
    hide Share, Cut;
    var largest := FindLargest(holes, list, ps);
    ghost var m, d := Largest(ps), parts - |ps| + 1;
    if largest.end - largest.begin < SPLIT_MINIMUM_PART {
      return false, list;
    }
    var tmp := CutSegment(largest, parts - holes.offset_in_file + 1, m, list, ps);
    CutLength(ps, m, d);
    list' := list[..m + 1] + [tmp] + list[m + 1..];
    assert list'[0] == list[0];
    CountPiece(holes, list', Cut(ps, m, d));
    cut := true;
  }

  /** The splitting loop; `holes.offset_in_file` counts the pieces. */
  method SplitHoles(holes: Segment, parts: int, ghost list0: seq<Segment>, ghost ps0: seq<Piece>)
    returns (ghost list: seq<Segment>)
    requires Holes(list0, ps0) && list0[0] == holes && holes.offset_in_file == |list0|
    modifies list0
    ensures Holes(list, SplitAll(ps0, parts)) && list[0] == holes && holes.offset_in_file == |list|
    ensures forall i :: 0 <= i < |list| ==> list[i] in list0 || fresh(list[i])
  {
    hide Cut;
    list := list0;
    ghost var ps := ps0;
    while parts > holes.offset_in_file
      invariant Holes(list, ps) && list[0] == holes && holes.offset_in_file == |list|
      invariant SplitAll(ps, parts) == SplitAll(ps0, parts)
      invariant forall i :: 0 <= i < |list| ==> list[i] in list0 || fresh(list[i])
      decreases parts - |ps|
    {
      var cut;
      cut, list := SplitOnce(holes, parts, list, ps);
      if !cut {
        break;
      }
      CutLength(ps, Largest(ps), parts - |ps| + 1);
      ps := Cut(ps, Largest(ps), parts - |ps| + 1);
    }
  }

  /** Moves the boundary between the first two pieces. */
  method ShiftBoundary(holes: Segment, ghost list: seq<Segment>, ghost ps: seq<Piece>)
    requires Holes(list, ps) && list[0] == holes
    modifies list
    ensures Holes(list, ShiftFirst(ps)) && holes.offset_in_file == old(holes.offset_in_file)
  {
    hide Share;
    if holes.next != null && holes.end == holes.next.begin {
      holes.end := holes.end + Share(holes.end - holes.begin, 10);
      holes.next.begin := holes.end;
    }
  }

  // ----- Handing the pieces out -----

  /** `chain` is linked by `next_part`. */
  ghost predicate Chained(chain: seq<SplitInfo>)
    reads chain
  {
    && (forall i, j :: 0 <= i < j < |chain| ==> chain[i] != chain[j])
    && (forall i {:trigger chain[i].next_part} :: 0 <= i < |chain| - 1 ==> chain[i].next_part == chain[i + 1])
  }

  /** The parts download the pieces in order. */
  ghost predicate Assigned(parts: seq<SplitInfo>, ps: seq<Piece>, count: int)
    requires |parts| <= |ps|
    reads parts
  {
    forall i {:trigger parts[i]} :: 0 <= i < |parts| ==>
      && parts[i].thread_num == i + 1 && parts[i].NumOfParts == count
      && parts[i].FirstByte == ps[i].begin && parts[i].LastByte == ps[i].end
  }

  /** The first `|parts|` pieces are handed out, first to the parts that were there before. */
  ghost predicate Progress(parts: seq<SplitInfo>, ps: seq<Piece>, chain: seq<SplitInfo>)
    reads parts, chain
  {
    && 0 < |parts| <= |ps| && Chained(parts) && Assigned(parts, ps, |ps|)
    && if |parts| <= |chain|
       then parts == chain[..|parts|] && Chained(chain) && chain[|chain| - 1].next_part == null
       else parts[|parts| - 1].next_part == null
  }

  /** The part behind `newsplit`, which is reused if a former run left one there. */
  method LinkPart(newsplit: SplitInfo, ghost parts: seq<SplitInfo>, ghost ps: seq<Piece>, ghost chain: seq<SplitInfo>)
    returns (temp: SplitInfo)
    requires Progress(parts, ps, chain) && newsplit == parts[|parts| - 1]
    modifies newsplit`next_part
    ensures Assigned(parts, ps, |ps|) && Chained(parts + [temp])
    ensures if |parts| < |chain| then temp == chain[|parts|] && Chained(chain) && chain[|chain| - 1].next_part == null
            else fresh(temp) && temp.next_part == null
  {
    if newsplit.next_part == null {
      newsplit.next_part := new SplitInfo();
    }
    temp := newsplit.next_part;
    ghost var parts' := parts + [temp];
    assert forall i :: 0 <= i < |parts| ==> parts'[i] == parts[i];
  }

  /** Tells `temp` its number and its piece; no link changes. */
  method FillPart(temp: SplitInfo, newsplit: SplitInfo, p: Piece, ghost parts: seq<SplitInfo>, ghost ps: seq<Piece>)
    requires 0 < |parts| < |ps| && newsplit == parts[|parts| - 1] && p == ps[|parts|]
    requires temp !in parts && Assigned(parts, ps, |ps|)
    modifies temp`NumOfParts, temp`thread_num, temp`FirstByte, temp`LastByte
    ensures Assigned(parts + [temp], ps, |ps|)
  {
    temp.NumOfParts := newsplit.NumOfParts;
    temp.thread_num := newsplit.thread_num + 1;
    temp.FirstByte := p.begin;
    temp.LastByte := p.end;
    ghost var parts' := parts + [temp];
    assert forall i :: 0 <= i < |parts| ==> parts'[i] == parts[i] && parts[i] != temp;
  }

  lemma LastIsNew(parts: seq<SplitInfo>, temp: SplitInfo)
    requires Chained(parts + [temp])
    ensures temp !in parts
  {
    var parts' := parts + [temp];
    forall i | 0 <= i < |parts|
      ensures parts[i] != temp
    {
      assert parts'[i] == parts[i] && parts'[|parts|] == temp;
    }
  }

  method NextPart(newsplit: SplitInfo, p: Piece, ghost parts: seq<SplitInfo>, ghost ps: seq<Piece>,
                  ghost chain: seq<SplitInfo>)
    returns (temp: SplitInfo)
    requires Progress(parts, ps, chain) && |parts| < |ps| && newsplit == parts[|parts| - 1] && p == ps[|parts|]
    modifies newsplit, if |parts| < |chain| then {chain[|parts|]} else {}
    ensures Progress(parts + [temp], ps, chain)
    ensures fresh(temp) || temp in chain
  {
    hide Assigned;
    temp := LinkPart(newsplit, parts, ps, chain);
    LastIsNew(parts, temp);
    FillPart(temp, newsplit, p, parts, ps);
    assert |parts| < |chain| ==> parts + [temp] == chain[..|parts| + 1];
  }

  /** The download itself takes the first piece. */
  method FirstPart(split: SplitInfo, holes: Segment, ghost list: seq<Segment>, ghost ps: seq<Piece>,
                   ghost chain: seq<SplitInfo>)
    requires Holes(list, ps) && list[0] == holes && holes.offset_in_file == |list|
    requires chain != [] && chain[0] == split && Chained(chain) && chain[|chain| - 1].next_part == null
    modifies split
    ensures Progress([split], ps, chain)
  {
    split.NumOfParts := holes.offset_in_file;
    split.FirstByte := holes.begin;
    split.LastByte := holes.end;
    split.thread_num := 1;
  }

  lemma HoleFacts(list: seq<Segment>, ps: seq<Piece>, k: nat)
    requires Holes(list, ps) && k < |list|
    ensures |list| == |ps| && list[k].begin == ps[k].begin && list[k].end == ps[k].end
    ensures list[k].next == if k + 1 < |list| then list[k + 1] else null
  {
  }

  lemma ProgressFacts(parts: seq<SplitInfo>, ps: seq<Piece>, chain: seq<SplitInfo>)
    requires Progress(parts, ps, chain)
    ensures Chained(parts) && Assigned(parts, ps, |ps|)
    ensures parts[|parts| - 1].thread_num == |parts| && parts[|parts| - 1].NumOfParts == |ps|
    ensures |parts| <= |chain| ==> forall i :: 0 <= i < |parts| ==> parts[i] == chain[i]
  {
  }

  /** Walks the pieces and the chain of parts in step. */
  method HandOut(split: SplitInfo, holes: Segment, ghost list: seq<Segment>, ghost ps: seq<Piece>,
                 ghost chain: seq<SplitInfo>)
    returns (ghost parts: seq<SplitInfo>)
    requires Holes(list, ps) && list != [] && list[0] == holes && holes.offset_in_file == |list|
    requires chain != [] && chain[0] == split && Chained(chain) && chain[|chain| - 1].next_part == null
    modifies chain
    ensures |parts| == |ps| && parts[0] == split && Chained(parts) && Assigned(parts, ps, |ps|)
    ensures forall i :: 0 <= i < |parts| ==> parts[i] in chain || fresh(parts[i])
  {
    hide Progress, Chained, Assigned, Holes;
    FirstPart(split, holes, list, ps, chain);
    HoleFacts(list, ps, 0);
    var hole := holes.next;
    var newsplit := split;
    parts := [split];
    while hole != null
      invariant Holes(list, ps) && Progress(parts, ps, chain)
      invariant 0 < |parts| <= |ps| == |list| && parts[0] == split && newsplit == parts[|parts| - 1]
      invariant hole == if |parts| < |list| then list[|parts|] else null
      invariant forall i :: 0 <= i < |parts| ==> parts[i] in chain || fresh(parts[i])
      decreases |list| - |parts|
    {
      ProgressFacts(parts, ps, chain);
      HoleFacts(list, ps, |parts|);
      if newsplit.thread_num < newsplit.NumOfParts {
        newsplit := NextPart(newsplit, Piece(hole.begin, hole.end), parts, ps, chain);
        parts := parts + [newsplit];
      }
      hole := hole.next;
    }
    ProgressFacts(parts, ps, chain);
  }

  /** `prepare_splits`: the parts download exactly the pieces that splitting and shifting
      produce; a first part that starts at 0 may load the whole file. */
  method PrepareSplits(split: SplitInfo, holes: Segment, size: int,
                       ghost list0: seq<Segment>, ghost ps0: seq<Piece>, ghost chain: seq<SplitInfo>)
    returns (ghost parts: seq<SplitInfo>)
    requires Holes(list0, ps0) && list0[0] == holes && holes.offset_in_file == |list0|
    requires chain != [] && chain[0] == split && Chained(chain) && chain[|chain| - 1].next_part == null
    modifies list0, chain
    ensures SplitAll(ps0, old(split.NumOfParts)) != []
    ensures var ps := ShiftFirst(SplitAll(ps0, old(split.NumOfParts)));
            && |parts| == |ps| && parts[0] == split && Chained(parts) && split.prepared
            && Assigned(parts, [if ps[0].begin == 0 then Piece(0, size) else ps[0]] + ps[1..], |ps|)
  {
    hide SplitAll, ShiftFirst, Chained, Assigned;
    ghost var qs := SplitAll(ps0, split.NumOfParts);
    SplitReaches(ps0, split.NumOfParts);
    ghost var ps := ShiftFirst(qs);
    ghost var list := SplitHoles(holes, split.NumOfParts, list0, ps0);
    ShiftBoundary(holes, list, qs);
    parts := HandOut(split, holes, list, ps, chain);
    Complete(split, size, parts, ps);
  }

  /** A first part that starts at 0 may load up to the end. */
  method Complete(split: SplitInfo, size: int, ghost parts: seq<SplitInfo>, ghost ps: seq<Piece>)
    requires |parts| == |ps| > 0 && parts[0] == split && Chained(parts) && Assigned(parts, ps, |ps|)
    modifies split`LastByte, split`prepared
    ensures split.prepared && Chained(parts)
    ensures Assigned(parts, [if ps[0].begin == 0 then Piece(0, size) else ps[0]] + ps[1..], |ps|)
  {
    if split.FirstByte == 0 {
      split.LastByte := size;
    }
    split.prepared := true;
  }
}
