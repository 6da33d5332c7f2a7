/** The hash table of a message catalogue: searching it and adding system-dependent strings. */
module MoTable {
  import opened Options
  import opened DoubleHash
  import opened HashString

  /** The hash value of a message as `nls_uint32`. */
  function HashOf(msgid: string): nat { Hash(msgid, TWO32) }

  /** Slot `i` of the search for `msgid`. */
  function Slot(n: nat, msgid: string, i: nat): (idx: nat)
    requires n > 2
    ensures idx < n
  {
    Probe(HashOf(msgid), n, i)
  }

  /** A table entry is 0 or one more than the number of a string. */
  predicate Hits(entry: nat, keys: seq<string>, msgid: string) {
    0 < entry <= |keys| && keys[entry - 1] == msgid
  }

  /** The search from probe `i` on: it stops on an empty slot or on the string itself. */
  function FindFrom(tab: seq<nat>, keys: seq<string>, msgid: string, i: nat): Option<nat>
    requires |tab| > 2
    decreases |tab| - i
  {
    if i >= |tab| then None
    else
      var entry := tab[Slot(|tab|, msgid, i)];
      if entry == 0 then None
      else if Hits(entry, keys, msgid) then Some(entry - 1)
      else FindFrom(tab, keys, msgid, i + 1)
  }

  function Find(tab: seq<nat>, keys: seq<string>, msgid: string): Option<nat>
    requires |tab| > 2
  {
    FindFrom(tab, keys, msgid, 0)
  }

  /** The first string equal to `msgid`, looked for one by one. */
  function LinearScan(keys: seq<string>, msgid: string): (r: Option<nat>)
    ensures r.Some? ==> r.value < |keys| && keys[r.value] == msgid
    ensures r.None? ==> forall k :: 0 <= k < |keys| ==> keys[k] != msgid
  {
    if keys == [] then None
    else if keys[0] == msgid then Some(0)
    else
      match LinearScan(keys[1..], msgid)
      case None => None
      case Some(k) => Some(k + 1)
  }

  ghost predicate Distinct(keys: seq<string>) {
    forall i, j :: 0 <= i < j < |keys| ==> keys[i] != keys[j]
  }

  // ----- Well-formed tables -----

  /** No empty slot precedes probe `i` for `msgid`. */
  ghost predicate Occupied(tab: seq<nat>, msgid: string, i: nat)
    requires |tab| > 2
  {
    forall j: nat :: j < i ==> tab[Slot(|tab|, msgid, j)] != 0
  }

  ghost predicate PlacedAt(tab: seq<nat>, msgid: string, entry: nat, i: nat)
    requires |tab| > 2
  {
    i < |tab| && tab[Slot(|tab|, msgid, i)] == entry && Occupied(tab, msgid, i)
  }

  ghost predicate Placed(tab: seq<nat>, msgid: string, entry: nat)
    requires |tab| > 2
  {
    exists i: nat :: PlacedAt(tab, msgid, entry, i)
  }

  /** The search for every string of `keys` reaches its entry. */
  ghost predicate Complete(tab: seq<nat>, keys: seq<string>)
    requires |tab| > 2
  {
    forall k :: 0 <= k < |keys| ==> Placed(tab, keys[k], k + 1)
  }

  /** All entries denote strings of `keys`. */
  ghost predicate Sound(tab: seq<nat>, keys: seq<string>) {
    forall s :: 0 <= s < |tab| ==> tab[s] <= |keys|
  }

  lemma {:induction false} FindReaches(tab: seq<nat>, keys: seq<string>, msgid: string, entry: nat, i: nat, at: nat)
    requires |tab| > 2 && PlacedAt(tab, msgid, entry, at) && Hits(entry, keys, msgid) && i <= at
    ensures FindFrom(tab, keys, msgid, i).Some?
    decreases at - i
  {
    if i < at && !Hits(tab[Slot(|tab|, msgid, i)], keys, msgid) {
      FindReaches(tab, keys, msgid, entry, i + 1, at);
    }
  }

  lemma {:induction false} FindHits(tab: seq<nat>, keys: seq<string>, msgid: string, i: nat)
    requires |tab| > 2
    ensures FindFrom(tab, keys, msgid, i).Some? ==> Hits(FindFrom(tab, keys, msgid, i).value + 1, keys, msgid)
    decreases |tab| - i
  {
    if i < |tab| && tab[Slot(|tab|, msgid, i)] != 0 && !Hits(tab[Slot(|tab|, msgid, i)], keys, msgid) {
      FindHits(tab, keys, msgid, i + 1);
    }
  }

  /** On a complete table the search succeeds exactly for the strings that are there; with
      distinct strings it gives the same number as a linear scan. */
  lemma FindAgrees(tab: seq<nat>, keys: seq<string>, msgid: string)
    requires |tab| > 2 && Complete(tab, keys)
    ensures Find(tab, keys, msgid).Some? <==> msgid in keys
    ensures Find(tab, keys, msgid).Some? ==>
              Find(tab, keys, msgid).value < |keys| && keys[Find(tab, keys, msgid).value] == msgid
    ensures Distinct(keys) ==> Find(tab, keys, msgid) == LinearScan(keys, msgid)
  {
    hide Slot, FindFrom;
    FindHits(tab, keys, msgid, 0);
    if msgid in keys {
      var k :| 0 <= k < |keys| && keys[k] == msgid;
      assert Placed(tab, keys[k], k + 1);
      var at: nat :| PlacedAt(tab, msgid, k + 1, at);
      FindReaches(tab, keys, msgid, k + 1, 0, at);
    }
  }

  // ----- Insertion -----

  /** The first probe that finds an empty slot, from probe `i` on. */
  function FreeProbe(tab: seq<nat>, msgid: string, i: nat): (r: nat)
    requires |tab| > 2
    ensures r >= i
    decreases |tab| - i
  {
    if i >= |tab| || tab[Slot(|tab|, msgid, i)] == 0 then i else FreeProbe(tab, msgid, i + 1)
  }

  /** The table after the string `msgid` got `entry`. */
  function InsertEntry(tab: seq<nat>, msgid: string, entry: nat): (r: seq<nat>)
    requires |tab| > 2
    ensures |r| == |tab|
  {
    tab[Slot(|tab|, msgid, FreeProbe(tab, msgid, 0)) := entry]
  }

  /** Some probe for `msgid` meets an empty slot. */
  ghost predicate Stops(tab: seq<nat>, msgid: string)
    requires |tab| > 2
  {
    exists i: nat :: tab[Slot(|tab|, msgid, i)] == 0
  }

  lemma EmptyProbe(tab: seq<nat>, msgid: string) returns (j: nat)
    requires |tab| > 2 && Stops(tab, msgid)
    ensures j < |tab| && tab[Slot(|tab|, msgid, j)] == 0
  {
    var i: nat :| tab[Slot(|tab|, msgid, i)] == 0;
    ProbePeriod(HashOf(msgid), |tab|, i);
    j := i % |tab|;
  }

  /** In a table of prime size the search for an empty slot comes to an end if there is one. */
  lemma SearchStops(tab: seq<nat>, msgid: string)
    requires |tab| > 2 && Prime(|tab|)
    ensures Stops(tab, msgid) <==> 0 in tab
  {
    if 0 in tab {
      var s :| 0 <= s < |tab| && tab[s] == 0;
      var j := ProbesCover(HashOf(msgid), |tab|, s);
      assert tab[Slot(|tab|, msgid, j)] == 0;
    }
  }

  lemma {:induction false} FreeProbeFacts(tab: seq<nat>, msgid: string, i: nat)
    requires |tab| > 2 && Stops(tab, msgid) && Occupied(tab, msgid, i)
    ensures PlacedAt(tab, msgid, 0, FreeProbe(tab, msgid, i))
    decreases |tab| - i
  {
    var j := EmptyProbe(tab, msgid);
    if i < |tab| && tab[Slot(|tab|, msgid, i)] != 0 {
      FreeProbeFacts(tab, msgid, i + 1);
    }
  }

  /** Filling an empty slot does not disturb a search that succeeded. */
  lemma {:induction false} FillKeepsFind(tab: seq<nat>, keys: seq<string>, msgid: string, i: nat, s: nat, key: string)
    requires |tab| > 2 && Sound(tab, keys) && s < |tab| && tab[s] == 0 && FindFrom(tab, keys, msgid, i).Some?
    ensures FindFrom(tab[s := |keys| + 1], keys + [key], msgid, i) == FindFrom(tab, keys, msgid, i)
    decreases |tab| - i
  {
    var entry := tab[Slot(|tab|, msgid, i)];
    assert entry > 0 ==> (keys + [key])[entry - 1] == keys[entry - 1];
    if !Hits(entry, keys, msgid) {
      FillKeepsFind(tab, keys, msgid, i + 1, s, key);
    }
  }

  lemma FillKeepsPlaced(tab: seq<nat>, msgid: string, entry: nat, s: nat, filled: nat)
    requires |tab| > 2 && s < |tab| && tab[s] == 0 && Placed(tab, msgid, entry) && entry > 0 && filled > 0
    ensures Placed(tab[s := filled], msgid, entry)
  {
    var i: nat :| PlacedAt(tab, msgid, entry, i);
    assert PlacedAt(tab[s := filled], msgid, entry, i);
  }

  /** Inserting a string keeps the table complete and every earlier result; afterwards the
      string is found, unless an equal one was there before and is still found. */
  lemma InsertKeeps(tab: seq<nat>, keys: seq<string>, key: string)
    requires |tab| > 2 && Stops(tab, key) && Sound(tab, keys) && Complete(tab, keys)
    ensures var tab', keys' := InsertEntry(tab, key, |keys| + 1), keys + [key];
            && Sound(tab', keys') && Complete(tab', keys')
            && (forall msgid :: Find(tab, keys, msgid).Some? ==> Find(tab', keys', msgid) == Find(tab, keys, msgid))
            && Find(tab', keys', key) == if key in keys then Find(tab, keys, key) else Some(|keys|)
  {
    hide Slot, FindFrom, FreeProbe;
    var i := FreeProbe(tab, key, 0);
    FreeProbeFacts(tab, key, 0);
    var s := Slot(|tab|, key, i);
    var tab', keys' := InsertEntry(tab, key, |keys| + 1), keys + [key];
    forall k | 0 <= k < |keys'|
      ensures Placed(tab', keys'[k], k + 1)
    {
      if k < |keys| {
        assert Placed(tab, keys[k], k + 1);
        FillKeepsPlaced(tab, keys[k], k + 1, s, |keys| + 1);
      } else {
        assert PlacedAt(tab', key, |keys| + 1, i);
      }
    }
    forall msgid | Find(tab, keys, msgid).Some?
      ensures Find(tab', keys', msgid) == Find(tab, keys, msgid)
    {
      FillKeepsFind(tab, keys, msgid, 0, s, key);
    }
    FindAgrees(tab, keys, key);
    FindAgrees(tab', keys', key);
    assert keys'[|keys|] == key;
  }

  function Free(tab: seq<nat>): nat {
    if tab == [] then 0 else Free(tab[..|tab| - 1]) + if tab[|tab| - 1] == 0 then 1 else 0
  }

  lemma {:induction false} FreeFill(tab: seq<nat>, s: nat, entry: nat)
    requires s < |tab| && tab[s] == 0 && entry > 0
    ensures Free(tab[s := entry]) == Free(tab) - 1
  {
    var n := |tab| - 1;
    if s < n {
      assert tab[s := entry][..n] == tab[..n][s := entry];
      FreeFill(tab[..n], s, entry);
    } else {
      assert tab[s := entry][..n] == tab[..n];
    }
  }

  lemma {:induction false} FreeMeansEmpty(tab: seq<nat>)
    ensures Free(tab) > 0 <==> 0 in tab
  {
    if tab != [] {
      FreeMeansEmpty(tab[..|tab| - 1]);
      assert tab == tab[..|tab| - 1] + [tab[|tab| - 1]];
    }
  }

  lemma InsertFree(tab: seq<nat>, msgid: string, entry: nat)
    requires |tab| > 2 && Stops(tab, msgid) && entry > 0
    ensures Free(InsertEntry(tab, msgid, entry)) == Free(tab) - 1
  {
    hide Stops;
    EmptyOccupied(tab, msgid);
    FreeProbeFacts(tab, msgid, 0);
    FreeFill(tab, Slot(|tab|, msgid, FreeProbe(tab, msgid, 0)), entry);
  }

  lemma EmptyOccupied(tab: seq<nat>, msgid: string)
    requires |tab| > 2
    ensures Occupied(tab, msgid, 0)
  {
  }

  /** The table after all of `added` were inserted behind `keys`. */
  function Augment(tab: seq<nat>, keys: seq<string>, added: seq<string>): (r: seq<nat>)
    requires |tab| > 2
    ensures |r| == |tab|
    decreases |added|
  {
    if added == [] then tab
    else Augment(InsertEntry(tab, added[0], |keys| + 1), keys + [added[0]], added[1..])
  }

  /** Every insertion of `added` comes to an end. */
  ghost predicate AllStop(tab: seq<nat>, keys: seq<string>, added: seq<string>)
    requires |tab| > 2
    decreases |added|
  {
    added != [] ==>
      Stops(tab, added[0]) && AllStop(InsertEntry(tab, added[0], |keys| + 1), keys + [added[0]], added[1..])
  }

  /** If every insertion comes to an end, the augmented table finds every string, gives the old strings
      their old numbers, and one slot less is free for every added string. */
  lemma {:induction false} AugmentKeeps(tab: seq<nat>, keys: seq<string>, added: seq<string>)
    requires |tab| > 2 && Sound(tab, keys) && Complete(tab, keys) && AllStop(tab, keys, added)
    ensures var tab', keys' := Augment(tab, keys, added), keys + added;
            && Sound(tab', keys') && Complete(tab', keys') && Free(tab') == Free(tab) - |added|
            && (forall msgid :: Find(tab, keys, msgid).Some? ==> Find(tab', keys', msgid) == Find(tab, keys, msgid))
    decreases |added|
  {
    hide Stops, Sound, Complete, Find, InsertEntry, Free;
    if added == [] {
      assert keys + added == keys;
    } else {
      var key := added[0];
      var tab1, keys1 := InsertEntry(tab, key, |keys| + 1), keys + [key];
      InsertFree(tab, key, |keys| + 1);
      InsertKeeps(tab, keys, key);
      AugmentKeeps(tab1, keys1, added[1..]);
      assert keys1 + added[1..] == keys + added;
    }
  }

  /** In a table of prime size every insertion comes to an end exactly if there is a free slot for every
      added string. */
  lemma {:induction false} AllStopIff(tab: seq<nat>, keys: seq<string>, added: seq<string>)
    requires |tab| > 2 && Prime(|tab|)
    ensures AllStop(tab, keys, added) <==> Free(tab) >= |added|
    decreases |added|
  {
    hide Prime, Stops, InsertEntry, Free;
    if added != [] {
      FreeMeansEmpty(tab);
      SearchStops(tab, added[0]);
      if Stops(tab, added[0]) {
        InsertFree(tab, added[0], |keys| + 1);
        AllStopIff(InsertEntry(tab, added[0], |keys| + 1), keys + [added[0]], added[1..]);
      }
    }
  }

  /** A table that gives what a linear scan gives goes on doing so, even if equal strings are added. */
  lemma {:induction false} AugmentScans(tab: seq<nat>, keys: seq<string>, added: seq<string>, msgid: string)
    requires |tab| > 2 && Sound(tab, keys) && Complete(tab, keys) && AllStop(tab, keys, added)
    requires Find(tab, keys, msgid) == LinearScan(keys, msgid)
    ensures Find(Augment(tab, keys, added), keys + added, msgid) == LinearScan(keys + added, msgid)
    decreases |added|
  {
    hide Stops, Sound, Complete, Find, InsertEntry, LinearScan;
    if added == [] {
      assert keys + added == keys;
    } else {
      var key := added[0];
      var tab1, keys1 := InsertEntry(tab, key, |keys| + 1), keys + [key];
      InsertKeeps(tab, keys, key);
      FindAgrees(tab, keys, msgid);
      FindAgrees(tab1, keys1, msgid);
      ScanSnoc(keys, key, msgid);
      AugmentScans(tab1, keys1, added[1..], msgid);
      assert keys1 + added[1..] == keys + added;
    }
  }

  lemma {:induction false} ScanSnoc(keys: seq<string>, key: string, msgid: string)
    ensures LinearScan(keys + [key], msgid)
            == if LinearScan(keys, msgid).Some? then LinearScan(keys, msgid)
               else if key == msgid then Some(|keys|) else None
  {
    if keys == [] {
      assert LinearScan([key][1..], msgid) == None;
    } else {
      ScanSnoc(keys[1..], key, msgid);
      assert (keys + [key])[1..] == keys[1..] + [key];
    }
  }

  // ----- Table sizes that are not prime -----

  /** A string with the hash value `h`: its digits in base 16, from 1 to 16 instead of 0 to 15, so that none
      of them is the null character. */
  function StringFor(h: nat): string {
    if h == 0 then "" else StringFor((h - 1) / 16) + [((h - 1) % 16 + 1) as char]
  }

  lemma FoldSmall(h: nat)
    requires h < TWO28
    ensures Fold(h) == h
  {
    hide Xor;
    assert h / TWO28 == 0;
  }

  lemma LastDigit(h: nat)
    requires h > 0
    ensures (h - 1) / 16 * 16 + ((h - 1) % 16 + 1) == h
  {
  }

  lemma StepSmall(h: nat)
    requires 0 < h < TWO28
    ensures Step((h - 1) / 16, (h - 1) % 16 + 1, TWO32) == h
  {
    hide Fold;
    LastDigit(h);
    FoldSmall(h);
  }

  lemma HashSnoc(s: string, c: char)
    ensures HashOf(s + [c]) == Step(HashOf(s), UnsignedChar(c), TWO32)
  {
    hide Step;
    assert (s + [c])[..|s|] == s;
  }

  lemma EmptyHash()
    ensures HashOf("") == 0
  {
  }

  lemma {:induction false} StringForHash(h: nat)
    requires h < TWO28
    ensures HashOf(StringFor(h)) == h && '\0' !in StringFor(h)
  {
    hide HashOf, Step;
    if h > 0 {
      StringForHash((h - 1) / 16);
      HashSnoc(StringFor((h - 1) / 16), ((h - 1) % 16 + 1) as char);
      StepSmall(h);
    } else {
      EmptyHash();
    }
  }

  lemma LargeSquare(d: nat)
    requires d >= TWO28
    ensures d * d >= TWO32
  {
    assert d * d >= TWO28 * d;
  }

  /** A string whose probes never visit the first slot. */
  lemma CompositeString(n: nat) returns (msgid: string)
    requires 2 < n < TWO32 && !Prime(n)
    ensures '\0' !in msgid && !Visits(HashOf(msgid), n, 0)
  {
    hide HashOf, Prime;
    var d := SmallDivisor(n);
    if d >= TWO28 { LargeSquare(d); }
    ProperDivisor(n, d);
    msgid := StringFor(d - 1);
    StringForHash(d - 1);
    CompositeMisses(n, d, d - 1);
  }

  /** The probes of every string visit every slot exactly when the size of the table is prime. */
  lemma CoverageNeedsPrime(n: nat)
    requires 2 < n < TWO32
    ensures Prime(n) <==>
            forall msgid: string, slot: nat | '\0' !in msgid && slot < n :: Visits(HashOf(msgid), n, slot)
  {
    hide Prime, Visits, HashOf;
    if Prime(n) {
      forall msgid: string, slot: nat | '\0' !in msgid && slot < n
        ensures Visits(HashOf(msgid), n, slot)
      {
        PrimeVisits(n, HashOf(msgid), slot);
      }
    } else {
      var msgid := CompositeString(n);
    }
  }

  /** A table with one empty slot in which some insertion goes on for ever. */
  lemma CompositeHangs(n: nat) returns (tab: seq<nat>, msgid: string)
    requires 2 < n < TWO32 && !Prime(n)
    ensures |tab| == n && 0 in tab && '\0' !in msgid && !Stops(tab, msgid)
  {
    hide Slot, HashOf, Prime;
    msgid := CompositeString(n);
    tab := seq(n, i => if i == 0 then 0 else 1);
    assert tab[0] == 0;
    NotVisited(tab, msgid);
  }

  lemma NotVisited(tab: seq<nat>, msgid: string)
    requires |tab| > 2 && (forall i :: 0 < i < |tab| ==> tab[i] != 0) && !Visits(HashOf(msgid), |tab|, 0)
    ensures !Stops(tab, msgid)
  {
  }

  /** The insertion of every string into every table with an empty slot comes to an end exactly when the
      size of the table is prime. */
  lemma InsertionNeedsPrime(n: nat)
    requires 2 < n < TWO32
    ensures Prime(n) <==>
            forall tab: seq<nat>, msgid: string | |tab| == n && 0 in tab && '\0' !in msgid :: Stops(tab, msgid)
  {
    hide Prime, Stops;
    if Prime(n) {
      forall tab: seq<nat>, msgid: string | |tab| == n && 0 in tab && '\0' !in msgid
        ensures Stops(tab, msgid)
      {
        SearchStops(tab, msgid);
      }
    } else {
      var tab, msgid := CompositeHangs(n);
    }
  }

  // ----- The loops -----

  /** The insertion loop. */
  method InsertString(hash_tab: array<nat>, msgid: string, entry: nat)
    requires hash_tab.Length > 2 && Stops(hash_tab[..], msgid)
    modifies hash_tab
    ensures hash_tab[..] == InsertEntry(old(hash_tab[..]), msgid, entry)
  {
    hide Stops, Probe, HashOf;
    var n := hash_tab.Length;
    ghost var tab := hash_tab[..];
    var hash_val := HashOf(msgid);
    var idx := InitialProbe(hash_val, n);
    var incr := Incr(hash_val, n);
    ghost var i := 0;
    ghost var last := FreeProbe(tab, msgid, 0);
    FreeProbeFacts(tab, msgid, 0);
    while hash_tab[idx] != 0
      invariant hash_tab[..] == tab && idx < n && idx == Slot(n, msgid, i)
      invariant i <= last && FreeProbe(tab, msgid, i) == last
      decreases last - i
    {
      NextProbe(hash_val, n, i);
      idx := Advance(idx, incr, n);
      i := i + 1;
    }
    hash_tab[idx] := entry;
  }

  function InitialProbe(h: nat, n: nat): (idx: nat)
    requires n > 2
    ensures idx == Probe(h, n, 0)
  {
    h % n
  }

  lemma NextProbe(h: nat, n: nat, i: nat)
    requires n > 2
    ensures Probe(h, n, i + 1) == Advance(Probe(h, n, i), Incr(h, n), n)
  {
  }

  /** Copies the table of the file and inserts the system-dependent strings. */
  method AugmentTable(file_tab: seq<nat>, inmem_hash_tab: array<nat>, ghost keys: seq<string>, nstrings: nat,
                      added: seq<string>)
    requires |file_tab| == inmem_hash_tab.Length > 2 && nstrings == |keys| && AllStop(file_tab, keys, added)
    modifies inmem_hash_tab
    ensures inmem_hash_tab[..] == Augment(file_tab, keys, added)
  {
    hide Stops, InsertEntry;
    var i := 0;
    while i < inmem_hash_tab.Length
      invariant 0 <= i <= |file_tab| && inmem_hash_tab[..i] == file_tab[..i]
    {
      inmem_hash_tab[i] := file_tab[i];
      i := i + 1;
    }
    assert inmem_hash_tab[..] == file_tab;
    i := 0;
    assert added[0..] == added;
    assert keys + added[..0] == keys;
    while i < |added|
      invariant 0 <= i <= |added|
      invariant Augment(inmem_hash_tab[..], keys + added[..i], added[i..]) == Augment(file_tab, keys, added)
      invariant AllStop(inmem_hash_tab[..], keys + added[..i], added[i..])
    {
      ghost var now := keys + added[..i];
      InsertString(inmem_hash_tab, added[i], 1 + nstrings + i);
      assert now + [added[i]] == keys + added[..i + 1];
      assert added[i..][1..] == added[i + 1..];
      i := i + 1;
    }
  }
}
