/** `_nl_find_msg` up to the label `found`: looking up a message in a loaded catalogue. */
module Catalogue {
  import opened Options
  import opened CStrings
  import opened DoubleHash
  import opened MoTable

  /** A string descriptor: its length and the memory that its offset or pointer leads to. */
  datatype Desc = Desc(length: nat, bytes: string)

  /** The decoded tables of `struct loaded_domain`; without a hash table the strings are sorted. */
  datatype Domain = Domain(orig_tab: seq<Desc>, orig_sysdep_tab: seq<Desc>, hash_tab: Option<seq<nat>>)

  /** A string of the file: the length does not count the null character behind it. */
  predicate StaticOk(d: Desc) { d.length < |d.bytes| && d.bytes[d.length] == '\0' }

  /** A composed string: the length counts its null character. */
  predicate SysdepOk(d: Desc) { 0 < d.length <= |d.bytes| && d.bytes[d.length - 1] == '\0' }

  predicate Decoded(d: Domain) {
    && (forall i :: 0 <= i < |d.orig_tab| ==> StaticOk(d.orig_tab[i]))
    && (forall i :: 0 <= i < |d.orig_sysdep_tab| ==> SysdepOk(d.orig_sysdep_tab[i]))
  }

  /** The message of string number `nstr`. */
  function Key(d: Domain, nstr: nat): string
    requires nstr < |d.orig_tab| + |d.orig_sysdep_tab|
  {
    if nstr < |d.orig_tab| then CString(d.orig_tab[nstr].bytes)
    else CString(d.orig_sysdep_tab[nstr - |d.orig_tab|].bytes)
  }

  function Keys(d: Domain): (keys: seq<string>)
    ensures |keys| == |d.orig_tab| + |d.orig_sysdep_tab|
    ensures forall k :: 0 <= k < |keys| ==> keys[k] == Key(d, k)
  {
    seq(|d.orig_tab| + |d.orig_sysdep_tab|, k requires 0 <= k < |d.orig_tab| + |d.orig_sysdep_tab| => Key(d, k))
  }

  /** The comparison of the hash search: lengths first, then `strcmp`. */
  predicate Matches(d: Domain, nstr: nat, msgid: string)
    requires nstr < |d.orig_tab| + |d.orig_sysdep_tab|
  {
    if nstr < |d.orig_tab| then
      d.orig_tab[nstr].length >= |msgid| && StrCmp(msgid, CString(d.orig_tab[nstr].bytes)) == 0
    else
      d.orig_sysdep_tab[nstr - |d.orig_tab|].length > |msgid|
      && StrCmp(msgid, CString(d.orig_sysdep_tab[nstr - |d.orig_tab|].bytes)) == 0
  }

  lemma CStringBefore(s: string, k: nat)
    requires k < |s| && s[k] == '\0'
    ensures |CString(s)| <= k
  {
  }

  /** The comparison of lengths never rejects the right string, whether the length counts the
      null character or not. */
  lemma LengthFilterSafe(d: Domain, nstr: nat, msgid: string)
    requires Decoded(d) && nstr < |d.orig_tab| + |d.orig_sysdep_tab|
    ensures Matches(d, nstr, msgid) <==> Key(d, nstr) == msgid
  {
    if nstr < |d.orig_tab| {
      var e := d.orig_tab[nstr];
      StrCmpEqual(msgid, CString(e.bytes));
      CStringBefore(e.bytes, e.length);
    } else {
      var e := d.orig_sysdep_tab[nstr - |d.orig_tab|];
      StrCmpEqual(msgid, CString(e.bytes));
      CStringBefore(e.bytes, e.length - 1);
    }
  }

  /** A hash table that a catalogue may use. */
  ghost predicate TableOk(tab: seq<nat>, keys: seq<string>) {
    |tab| > 2 && Sound(tab, keys) && Complete(tab, keys)
  }

  /** The search for `msgid` comes to an end. */
  ghost predicate SearchEnds(tab: seq<nat>, keys: seq<string>, msgid: string)
    requires |tab| > 2
  {
    exists i: nat :: tab[Slot(|tab|, msgid, i)] == 0 || Hits(tab[Slot(|tab|, msgid, i)], keys, msgid)
  }

  /** The string is there, or some probe meets an empty slot; in a table of prime size one empty slot is
      enough for all strings. */
  lemma SearchEndsIff(tab: seq<nat>, keys: seq<string>, msgid: string)
    requires TableOk(tab, keys)
    ensures SearchEnds(tab, keys, msgid) <==> msgid in keys || Stops(tab, msgid)
    ensures Prime(|tab|) && 0 in tab ==> SearchEnds(tab, keys, msgid)
  {
    hide Slot, Prime;
    if msgid in keys {
      var k :| 0 <= k < |keys| && keys[k] == msgid;
      assert Placed(tab, keys[k], k + 1);
      var i: nat :| PlacedAt(tab, msgid, k + 1, i);
      assert Hits(tab[Slot(|tab|, msgid, i)], keys, msgid);
    }
    if Prime(|tab|) { SearchStops(tab, msgid); }
  }

  /** A probe within one round that ends the search. */
  lemma LastProbe(tab: seq<nat>, keys: seq<string>, msgid: string) returns (j: nat)
    requires TableOk(tab, keys) && SearchEnds(tab, keys, msgid)
    ensures j < |tab|
    ensures tab[Slot(|tab|, msgid, j)] == 0 || Hits(tab[Slot(|tab|, msgid, j)], keys, msgid)
  {
    var i: nat :| tab[Slot(|tab|, msgid, i)] == 0 || Hits(tab[Slot(|tab|, msgid, i)], keys, msgid);
    ProbePeriod(HashOf(msgid), |tab|, i);
    j := i % |tab|;
  }

  /** Strings in the order of `strcmp`. */
  ghost predicate Ascending(keys: seq<string>) {
    forall i, j :: 0 <= i < j < |keys| ==> StrCmp(keys[i], keys[j]) < 0
  }

  lemma AscendingDistinct(keys: seq<string>)
    requires Ascending(keys)
    ensures Distinct(keys)
  {
    forall i, j | 0 <= i < j < |keys|
      ensures keys[i] != keys[j]
    {
      StrCmpEqual(keys[i], keys[j]);
    }
  }

  method HashLookup(d: Domain, tab: seq<nat>, msgid: string) returns (act: Option<nat>)
    requires Decoded(d) && TableOk(tab, Keys(d)) && SearchEnds(tab, Keys(d), msgid)
    ensures act == Find(tab, Keys(d), msgid)
  {
    hide Complete, Probe, Matches, HashOf, Key, Decoded, SearchEnds;
    ghost var keys := Keys(d);
    var n := |tab|;
    var hash_val := HashOf(msgid);
    var idx := InitialProbe(hash_val, n);
    var incr := Incr(hash_val, n);
    ghost var i := 0;
    ghost var last := LastProbe(tab, keys, msgid);
    while true
      invariant idx < n && idx == Slot(n, msgid, i) && i <= last < n
      invariant FindFrom(tab, keys, msgid, i) == Find(tab, keys, msgid)
      decreases last - i
    {
      var nstr := tab[idx];
      if nstr == 0 {
        return None;
      }
      assert nstr <= |keys|;
      nstr := nstr - 1;
      LengthFilterSafe(d, nstr, msgid);
      if Matches(d, nstr, msgid) {
        return Some(nstr);
      }
      NextProbe(hash_val, n, i);
      idx := Advance(idx, incr, n);
      i := i + 1;
    }
  }

  lemma BelowMiddle(keys: seq<string>, msgid: string, mid: nat, j: nat)
    requires Ascending(keys) && mid <= j < |keys| && StrCmp(msgid, keys[mid]) < 0
    ensures keys[j] != msgid
  {
    if mid < j {
      StrCmpTransitive(msgid, keys[mid], keys[j]);
    }
    StrCmpEqual(msgid, keys[j]);
  }

  lemma AboveMiddle(keys: seq<string>, msgid: string, mid: nat, j: nat)
    requires Ascending(keys) && j <= mid < |keys| && StrCmp(msgid, keys[mid]) > 0
    ensures keys[j] != msgid
  {
    StrCmpFlip(keys[mid], msgid);
    if j < mid {
      StrCmpTransitive(keys[j], keys[mid], msgid);
    }
    StrCmpEqual(keys[j], msgid);
  }

  lemma LinearScanAt(keys: seq<string>, k: nat)
    requires Distinct(keys) && k < |keys|
    ensures LinearScan(keys, keys[k]) == Some(k)
  {
  }

  method BinaryLookup(d: Domain, msgid: string) returns (act: Option<nat>)
    requires d.orig_sysdep_tab == [] && Ascending(Keys(d))
    ensures act == LinearScan(Keys(d), msgid)
  {
    hide Ascending, Distinct, Key;
    ghost var keys := Keys(d);
    AscendingDistinct(keys);
    var bottom, top := 0, |d.orig_tab|;
    while bottom < top
      invariant 0 <= bottom <= top <= |keys| == |d.orig_tab|
      invariant forall j :: 0 <= j < bottom ==> keys[j] != msgid
      invariant forall j :: top <= j < |keys| ==> keys[j] != msgid
      decreases top - bottom
    {
      var mid := (bottom + top) / 2;
      KeyOfStatic(d, mid);
      var cmp_val := StrCmp(msgid, CString(d.orig_tab[mid].bytes));
      if cmp_val < 0 {
        forall j | mid <= j < |keys|
          ensures keys[j] != msgid
        {
          BelowMiddle(keys, msgid, mid, j);
        }
        top := mid;
      } else if cmp_val > 0 {
        forall j | 0 <= j <= mid
          ensures keys[j] != msgid
        {
          AboveMiddle(keys, msgid, mid, j);
        }
        bottom := mid + 1;
      } else {
        StrCmpEqual(msgid, keys[mid]);
        LinearScanAt(keys, mid);
        return Some(mid);
      }
    }
    return None;
  }

  lemma KeyOfStatic(d: Domain, k: nat)
    requires k < |d.orig_tab|
    ensures Keys(d)[k] == CString(d.orig_tab[k].bytes)
  {
  }

  /** The index of a catalogue: a hash table, or the order of its strings. */
  ghost predicate WellFormed(d: Domain) {
    Decoded(d) &&
    match d.hash_tab
    case Some(tab) => TableOk(tab, Keys(d))
    case None => d.orig_sysdep_tab == [] && Ascending(Keys(d))
  }

  ghost predicate LookupEnds(d: Domain, msgid: string)
    requires WellFormed(d)
  {
    d.hash_tab.Some? ==> SearchEnds(d.hash_tab.value, Keys(d), msgid)
  }

  /** Whichever index a catalogue has, a lookup finds exactly the strings that are there; if they are
      different, it gives what a linear scan gives. */
  method Lookup(d: Domain, msgid: string) returns (act: Option<nat>)
    requires WellFormed(d) && LookupEnds(d, msgid)
    ensures act.Some? <==> msgid in Keys(d)
    ensures act.Some? ==> act.value < |Keys(d)| && Keys(d)[act.value] == msgid
    ensures Distinct(Keys(d)) ==> act == LinearScan(Keys(d), msgid)
    ensures d.hash_tab.Some? ==> act == Find(d.hash_tab.value, Keys(d), msgid)
    ensures d.hash_tab.None? ==> act == LinearScan(Keys(d), msgid)
  {
    hide Keys, Decoded, Complete, Sound, Find, LinearScan, SearchEnds, Ascending, Distinct;
    match d.hash_tab
    case Some(tab) =>
      act := HashLookup(d, tab, msgid);
      FindAgrees(tab, Keys(d), msgid);
    case None =>
      act := BinaryLookup(d, msgid);
  }

  lemma AddedKeys(d: Domain, added: seq<Desc>)
    requires d.orig_sysdep_tab == []
    ensures Keys(d.(orig_sysdep_tab := added)) == Keys(d) + Keys(d.(orig_sysdep_tab := added))[|d.orig_tab|..]
    ensures |Keys(d.(orig_sysdep_tab := added))[|d.orig_tab|..]| == |added|
  {
    var keys', keys := Keys(d.(orig_sysdep_tab := added)), Keys(d);
    assert forall k :: 0 <= k < |keys| ==> keys'[k] == keys[k];
  }

  /** Adding system-dependent strings to the table of a catalogue gives a table that the search may use:
      what was found keeps its number, what was added is found, and nothing else is. */
  lemma AugmentedCatalogue(d: Domain, added: seq<Desc>, msgid: string)
    requires d.hash_tab.Some? && d.orig_sysdep_tab == [] && TableOk(d.hash_tab.value, Keys(d))
    requires AllStop(d.hash_tab.value, Keys(d), Keys(d.(orig_sysdep_tab := added))[|d.orig_tab|..])
    ensures var tab, keys' := d.hash_tab.value, Keys(d.(orig_sysdep_tab := added));
            var tab' := Augment(tab, Keys(d), keys'[|d.orig_tab|..]);
            && TableOk(tab', keys')
            && (msgid in Keys(d) ==> Find(tab', keys', msgid) == Find(tab, Keys(d), msgid))
            && (Find(tab', keys', msgid).Some? <==> msgid in keys')
  {
    hide Sound, Complete, Free, Find, Augment, Keys, AllStop;
    var tab, keys, keys' := d.hash_tab.value, Keys(d), Keys(d.(orig_sysdep_tab := added));
    AddedKeys(d, added);
    var more := keys'[|d.orig_tab|..];
    AugmentKeeps(tab, keys, more);
    FindAgrees(tab, keys, msgid);
    FindAgrees(Augment(tab, keys, more), keys', msgid);
  }
}
