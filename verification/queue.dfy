/** The intrusive queue of the downloader: `First` is its oldest node, `prev` leads to `Last`. */
module Queue {
  import opened ListSort

  class Node {
    var next: Node?
    var prev: Node?

    constructor ()
      ensures next == null && prev == null
    {
      next, prev := null, null;
    }
  }

  /** The number of nodes after `n` calls of `dispose`, which does nothing on an empty queue. */
  function AfterDrops(num: nat, n: nat): nat { if n < num then num - n else 0 }

  /** Dropping nodes gets below a limit exactly if the limit is positive. */
  lemma DropsReach(num: nat, limit: int)
    ensures AfterDrops(num, 0) == num
    ensures forall n: nat :: AfterDrops(num, n + 1) == (if AfterDrops(num, n) == 0 then 0 else AfterDrops(num, n) - 1)
    ensures (exists n: nat :: AfterDrops(num, n) < limit) <==> limit > 0
  {
    if limit > 0 { assert AfterDrops(num, num) < limit; }
  }

  class TQueue {
    var MaxNum: int
    var Num: int
    var First: Node?
    var Last: Node?
    var Curent: Node?
    /** The nodes from `First` to `Last`. */
    ghost var Nodes: seq<Node>

    ghost predicate Distinct() reads this {
      forall i, j :: 0 <= i < j < |Nodes| ==> Nodes[i] != Nodes[j]
    }

    /** All links agree with the order of the nodes. */
    ghost predicate Linked() reads this, Nodes {
      && Distinct()
      && First == (if Nodes == [] then null else Nodes[0])
      && Last == (if Nodes == [] then null else Nodes[|Nodes| - 1])
      && (forall i {:trigger Nodes[i].prev} :: 0 <= i < |Nodes| ==>
            Nodes[i].prev == if i + 1 < |Nodes| then Nodes[i + 1] else null)
      && (forall i {:trigger Nodes[i].next} :: 0 <= i < |Nodes| ==>
            Nodes[i].next == if i > 0 then Nodes[i - 1] else null)
    }

    /** A linked queue that is counted correctly and within its limit; 0 means no limit. */
    ghost predicate Valid() reads this, Nodes {
      Linked() && Num == |Nodes| && MaxNum >= 0 && (MaxNum > 0 ==> Num <= MaxNum)
    }

    constructor ()
      ensures Valid() && Nodes == [] && MaxNum == 0
    {
      Curent, First, Last := null, null, null;
      MaxNum, Num := 0, 0;
      Nodes := [];
    }

    /** Drops the oldest node. */
    method Dispose()
      requires Linked() && Num == |Nodes|
      modifies this`First, this`Last, this`Num, this`Nodes, Nodes
      ensures Linked() && Num == |Nodes|
      ensures Nodes == if old(Nodes) == [] then [] else old(Nodes)[1..]
    {
      if First != null {
        First := First.prev;
        Nodes := Nodes[1..];
        if First != null {
          First.next := null;
        } else {
          Last := null;
        }
        Num := Num - 1;
      }
    }

    /** What is left when the queue must have room for one more node. */
    ghost function Room(nodes: seq<Node>): seq<Node>
      reads this
    {
      if MaxNum > 0 && |nodes| >= MaxNum then nodes[|nodes| - MaxNum + 1..] else nodes
    }

    method FreeToLimit()
      requires Linked() && Num == |Nodes| && MaxNum >= 0
      modifies this`First, this`Last, this`Num, this`Nodes, Nodes
      ensures Linked() && Num == |Nodes|
      ensures Nodes == Room(old(Nodes))
    {
      if MaxNum != 0 && Num >= MaxNum {
        ghost var dropped := 0;
        while Num >= MaxNum
          invariant Linked() && Num == |Nodes|
          invariant 0 <= dropped <= |old(Nodes)| && Nodes == old(Nodes)[dropped..]
          invariant Num >= MaxNum - 1
          decreases Num
        {
          Dispose();
          dropped := dropped + 1;
        }
      }
    }

    /** Counts the nodes along `prev` and drops what exceeds the new limit. */
    method InitLimit(n: int)
      requires Linked() && n >= 0
      modifies this, Nodes
      ensures Valid() && MaxNum == n && Nodes == Room(old(Nodes))
      ensures |Nodes| == if n > 0 && |old(Nodes)| >= n then n - 1 else |old(Nodes)|
      ensures Nodes == old(Nodes)[|old(Nodes)| - |Nodes|..]
    {
      MaxNum := n;
      var tmp := First;
      Num := 0;
      while tmp != null
        invariant Linked() && Nodes == old(Nodes) && MaxNum == n
        invariant 0 <= Num <= |Nodes| && tmp == if Num < |Nodes| then Nodes[Num] else null
        decreases |Nodes| - Num
      {
        Num := Num + 1;
        tmp := tmp.prev;
      }
      FreeToLimit();
    }

    /** Links a node behind `Last`. */
    method Append(what: Node)
      requires Linked() && Num == |Nodes| && what !in Nodes
      modifies this`First, this`Last, this`Num, this`Curent, this`Nodes, Nodes, what
      ensures Linked() && Num == |Nodes| && Curent == what && Nodes == old(Nodes) + [what]
    {
      ghost var s := Nodes;
      Num := Num + 1;
      what.prev := null;
      what.next := Last;
      if what.next != null {
        Last.prev := what;
      } else {
        First := what;
      }
      Last := what;
      Curent := what;
      Nodes := s + [what];
      assert forall i :: 0 <= i < |s| ==> Nodes[i] == s[i];
      assert forall i {:trigger Nodes[i].next} :: 0 <= i < |s| ==> Nodes[i].next == if i > 0 then s[i - 1] else null;
    }

    /** Appends a node behind `Last`, after making room for it. */
    method Insert(what: Node)
      requires Valid() && what !in Nodes
      modifies this, Nodes, what
      ensures Valid() && MaxNum == old(MaxNum) && Curent == what
      ensures Nodes == Room(old(Nodes)) + [what]
      ensures var s := old(Nodes) + [what];
              && |Nodes| == (if MaxNum > 0 && |s| > MaxNum then MaxNum else |s|)
              && Nodes == s[|s| - |Nodes|..]
    {
      hide Linked;
      FreeToLimit();
      Append(what);
    }

    lemma RemovedAt(s: seq<Node>, k: nat)
      requires k < |s|
      ensures var t := RemoveAt(s, k);
              && |t| == |s| - 1 && (forall i :: 0 <= i < k ==> t[i] == s[i])
              && (forall i :: k <= i < |t| ==> t[i] == s[i + 1])
    {
    }

    /** Unlinks the node at position `k`. */
    method Del(what: Node, ghost k: nat)
      requires Linked() && Num == |Nodes| && k < |Nodes| && Nodes[k] == what
      modifies this`First, this`Last, this`Num, this`Nodes, Nodes
      ensures Linked() && Num == |Nodes| && Nodes == RemoveAt(old(Nodes), k) && what !in Nodes
    {
      Num := Num - 1;
      if what.prev != null {
        what.prev.next := what.next;
      } else {
        Last := what.next;
      }
      if what.next != null {
        what.next.prev := what.prev;
      } else {
        First := what.prev;
      }
      ghost var s := Nodes;
      Nodes := RemoveAt(s, k);
      RemovedAt(s, k);
      assert Distinct();
    }

    /** `del` and `insert` in a row: the node goes to the end and no node is dropped. */
    method MoveToBack(what: Node, ghost k: nat)
      requires Valid() && k < |Nodes| && Nodes[k] == what
      modifies this, Nodes
      ensures Valid() && MaxNum == old(MaxNum) && Num == old(Num) && Nodes == MoveToEnd(old(Nodes), k)
    {
      Del(what, k);
      Insert(what);
    }

    lemma CursorFacts(i: nat)
      requires Valid() && i < |Nodes|
      ensures First == Nodes[0] && Nodes[i].prev == if i + 1 < |Nodes| then Nodes[i + 1] else null
    {
    }

    lemma FirstIsNull()
      requires Valid()
      ensures First == null <==> Nodes == []
      ensures First != null ==> First == Nodes[0]
    {
    }

    /** Sorts by moving the first node that is larger than its successor to the end and
        starting over. */
    method Sort(cmpfunc: (Node, Node) -> int)
      requires Valid() && Preorder(cmpfunc, Nodes)
      modifies this, Nodes
      ensures Valid() && Sorted(cmpfunc, Nodes)
      ensures multiset(Nodes) == multiset(old(Nodes)) && Num == old(Num) && MaxNum == old(MaxNum)
    {
      hide Valid, Preorder, Sorted, Measure, MoveToEnd, Arrange;
      ghost var order := Arrange(cmpfunc, Nodes);
      ArrangeCorrect(cmpfunc, Nodes);
      FirstIsNull();
      var a := First;
      ghost var i := 0;
      while a != null && a.prev != null
        invariant Valid() && MaxNum == old(MaxNum) && Num == old(Num)
        invariant multiset(Nodes) == multiset(old(Nodes)) == multiset(order) && Preorder(cmpfunc, Nodes)
        invariant Within(Nodes, old(Nodes))
        invariant a == null <==> Nodes == []
        invariant a != null ==> 0 <= i < |Nodes| && a == Nodes[i] && Ascending(cmpfunc, Nodes, i + 1)
        decreases Measure(cmpfunc, Nodes, order), |Nodes| - i
      {
        CursorFacts(i);
        var prev := a.prev;
        if cmpfunc(a, prev) > 0 {
          ghost var s := Nodes;
          PermutationWithin(order, s);
          PermutationWithin(s, order);
          MoveDecreases(cmpfunc, s, i, order);
          MoveToEndPermutes(s, i);
          MoveToBack(a, i);
          PreorderPermutes(cmpfunc, s, Nodes);
          PermutationWithin(Nodes, old(Nodes));
          FirstIsNull();
          a := First;
          i := 0;
        } else {
          a := prev;
          i := i + 1;
        }
      }
      if a != null {
        CursorFacts(i);
        AscendingIsSorted(cmpfunc, Nodes);
      } else {
        EmptySorted(cmpfunc, Nodes);
      }
    }
  }
}
