/** A catalogue from its file to a translation: `_nl_load_domain` on the decoded tables, and `_nl_find_msg`
    up to the conversion. */
module LoadedCatalogue {
  import opened Options
  import opened CStrings
  import opened DoubleHash
  import opened MoTable
  import opened Catalogue
  import Sys = SysdepStrings

  /** The decoded tables of a file; `minor` is the minor revision, and a hash table of at most two slots is
      none. */
  datatype CatalogueFile = CatalogueFile(
    minor: nat,
    orig_tab: seq<Desc>,
    trans_tab: seq<Desc>,
    hash_tab: Option<seq<nat>>,
    sysdep: Sys.Tables)

  /** What is loaded: the original strings with their index, and the translations. */
  datatype Loaded = Loaded(domain: Domain, trans_tab: seq<Desc>, trans_sysdep_tab: seq<Desc>)

  // ----- What a file promises -----

  /** The last static segment of a string includes the null character at its end. */
  predicate Terminated(s: Sys.SysdepString) {
    var n := Sys.StaticSize(s.segments, 0);
    && s.segments != [] && s.segments[|s.segments| - 1].segsize > 0
    && 0 < n <= |s.static_segments| && s.static_segments[n - 1] == '\0'
  }

  ghost predicate SysdepTablesOk(t: Sys.Tables) {
    && Sys.TablesOk(t)
    && forall i :: 0 <= i < |t.orig| ==> Terminated(t.orig[i]) && Terminated(t.trans[i])
  }

  function StaticPart(f: CatalogueFile): Domain { Domain(f.orig_tab, [], f.hash_tab) }

  function StaticKeys(f: CatalogueFile): seq<string> { Keys(StaticPart(f)) }

  /** Static strings are different from each other, and in the hash table, or sorted if there is none. */
  ghost predicate FileOk(f: CatalogueFile) {
    && WellFormed(StaticPart(f)) && Distinct(StaticKeys(f))
    && |f.trans_tab| == |f.orig_tab| && (forall i :: 0 <= i < |f.trans_tab| ==> StaticOk(f.trans_tab[i]))
    && (f.minor > 0 ==> SysdepTablesOk(f.sysdep))
  }

  /** The number of system-dependent pairs in the file. */
  function SysdepCount(f: CatalogueFile): nat { if f.minor > 0 then |f.sysdep.orig| else 0 }

  /** Files with system-dependent strings need a hash table and valid references. */
  ghost predicate Invalid(f: CatalogueFile)
    requires FileOk(f)
  {
    f.minor > 0 && (f.hash_tab.None? || Sys.AnyBroken(f.sysdep, |f.sysdep.orig|))
  }

  // ----- What a file means -----

  /** A message and the bytes of its translation, with the null character at the end. */
  datatype Entry = Entry(msgid: string, translation: string)

  function Text(d: Desc): string
    requires StaticOk(d)
  {
    d.bytes[..d.length + 1]
  }

  ghost function StaticEntries(f: CatalogueFile): (r: seq<Entry>)
    requires FileOk(f)
    ensures |r| == |f.orig_tab|
  {
    seq(|f.orig_tab|, i requires 0 <= i < |f.orig_tab| => Entry(CString(f.orig_tab[i].bytes), Text(f.trans_tab[i])))
  }

  /** The composed strings of a pair that is kept. */
  ghost function SysdepEntry(t: Sys.Tables, i: nat): Entry
    requires Sys.TablesOk(t) && i < |t.orig| && Sys.ScanAt(t, i).Fits?
  {
    Entry(CString(Sys.Content(t.orig[i], t.values)), Sys.Content(t.trans[i], t.values))
  }

  /** One entry for each of the first `k` pairs that is kept. */
  ghost function SysdepEntries(t: Sys.Tables, k: nat): seq<Entry>
    requires Sys.TablesOk(t) && k <= |t.orig|
  {
    if k == 0 then []
    else SysdepEntries(t, k - 1) + if Sys.ScanAt(t, k - 1).Fits? then [SysdepEntry(t, k - 1)] else []
  }

  ghost function AddedEntries(f: CatalogueFile): seq<Entry>
    requires FileOk(f)
  {
    if f.minor > 0 then SysdepEntries(f.sysdep, |f.sysdep.orig|) else []
  }

  /** All messages of a file. */
  ghost function Entries(f: CatalogueFile): seq<Entry>
    requires FileOk(f)
  {
    StaticEntries(f) + AddedEntries(f)
  }

  /** The translation of the first entry for `msgid`. */
  function FirstEntry(es: seq<Entry>, msgid: string): Option<string> {
    if es == [] then None
    else if es[0].msgid == msgid then Some(es[0].translation)
    else FirstEntry(es[1..], msgid)
  }

  function Msgids(es: seq<Entry>): seq<string> { seq(|es|, i requires 0 <= i < |es| => es[i].msgid) }

  lemma {:induction false} FirstEntryScans(es: seq<Entry>, msgid: string)
    ensures var k := LinearScan(Msgids(es), msgid);
            && (k.Some? ==> k.value < |es|)
            && FirstEntry(es, msgid) == if k.Some? then Some(es[k.value].translation) else None
  {
    if es != [] {
      assert Msgids(es)[1..] == Msgids(es[1..]);
      FirstEntryScans(es[1..], msgid);
    }
  }

  // ----- Composed strings end in a null character -----

  predicate EndsNull(s: string) { s != "" && s[|s| - 1] == '\0' }

  lemma {:induction false} StaticSizeAtLeast(segs: seq<Sys.SegmentPair>, i: nat)
    requires i < |segs|
    ensures Sys.StaticSize(segs, i) >= segs[|segs| - 1].segsize
    decreases |segs| - i
  {
    if i + 1 < |segs| { StaticSizeAtLeast(segs, i + 1); }
  }

  lemma {:induction false} ContentEnds(segs: seq<Sys.SegmentPair>, values: Sys.Values, i: nat, rest: string)
    requires i < |segs| && segs[|segs| - 1].segsize > 0 && segs[|segs| - 1].sysdepref == Sys.SEGMENTS_END
    requires forall k :: 0 <= k < |segs| - 1 ==> segs[k].sysdepref != Sys.SEGMENTS_END
    requires 0 < Sys.StaticSize(segs, i) <= |rest| && rest[Sys.StaticSize(segs, i) - 1] == '\0'
    requires Sys.ScanFrom(segs, values, i).Fits?
    ensures EndsNull(Sys.ContentFrom(segs, values, i, rest))
    decreases |segs| - i
  {
    if i == |segs| - 1 {
      assert Sys.StaticSize(segs, i) == segs[i].segsize + Sys.StaticSize(segs, i + 1);
    } else {
      StaticSizeAtLeast(segs, i + 1);
      ContentEnds(segs, values, i + 1, rest[segs[i].segsize..]);
    }
  }

  lemma ComposedEnds(s: Sys.SysdepString, values: Sys.Values)
    requires Sys.Decoded(s) && Terminated(s) && Sys.ScanString(s, values).Fits?
    ensures EndsNull(Sys.Content(s, values))
  {
    if s.segments[0].sysdepref == Sys.SEGMENTS_END {
      assert Sys.StaticSize(s.segments, 0) == s.segments[0].segsize + Sys.StaticSize(s.segments, 1);
    } else {
      ContentEnds(s.segments, values, 0, s.static_segments);
    }
  }

  // ----- Descriptors of composed strings -----

  /** A descriptor with the memory that its pointer leads to. */
  function DescOf(d: Sys.SysdepStringDesc, mem: string): Desc
    requires Sys.InBounds(d, |mem|)
  {
    match d.pointer
    case InFile(bytes) => Desc(d.length, bytes)
    case InMemory(offset) => Desc(d.length, mem[offset..])
  }

  /** A composed string can be searched for, and its descriptor leads to all of it. */
  lemma DescDenotes(d: Sys.SysdepStringDesc, mem: string, content: string)
    requires Sys.InBounds(d, |mem|) && Sys.Denoted(d, mem) == content && EndsNull(content)
    ensures var e := DescOf(d, mem);
            SysdepOk(e) && e.bytes[..e.length] == content && CString(e.bytes) == CString(content)
  {
    var e := DescOf(d, mem);
    if d.pointer.InMemory? {
      assert mem[d.pointer.offset..][..d.length] == content;
    }
    assert e.bytes[e.length - 1] == e.bytes[..e.length][e.length - 1];
    CStringBefore(content, |content| - 1);
    var r := CString(content);
    assert e.bytes[..|r|] == content[..|r|] && e.bytes[|r|] == content[|r|];
    CStringUnique(e.bytes, r);
  }

  function DescsOf(ds: seq<Sys.SysdepStringDesc>, mem: string): (r: seq<Desc>)
    requires forall j :: 0 <= j < |ds| ==> Sys.InBounds(ds[j], |mem|)
    ensures |r| == |ds|
  {
    seq(|ds|, j requires 0 <= j < |ds| => DescOf(ds[j], mem))
  }

  /** The descriptors `o` and `r` lead to the strings of the entry `e`. */
  ghost predicate Shows(o: Desc, r: Desc, e: Entry) {
    SysdepOk(o) && SysdepOk(r) && CString(o.bytes) == e.msgid && r.bytes[..r.length] == e.translation
  }

  ghost predicate AllShow(os: seq<Desc>, rs: seq<Desc>, es: seq<Entry>) {
    |os| == |rs| == |es| && forall j :: 0 <= j < |es| ==> Shows(os[j], rs[j], es[j])
  }

  lemma FilledShows(t: Sys.Tables, o: Sys.SysdepStringDesc, r: Sys.SysdepStringDesc, mem: string, i: nat)
    requires SysdepTablesOk(t) && Sys.FilledAt(t, o, r, mem, i)
    ensures Shows(DescOf(o, mem), DescOf(r, mem), SysdepEntry(t, i))
  {
    hide Sys.Decoded, Sys.ScanString, Sys.Content, Terminated, SysdepOk;
    FitsBoth(t, i);
    ComposedEnds(t.orig[i], t.values);
    ComposedEnds(t.trans[i], t.values);
    DescDenotes(o, mem, Sys.Content(t.orig[i], t.values));
    DescDenotes(r, mem, Sys.Content(t.trans[i], t.values));
  }

  lemma FitsBoth(t: Sys.Tables, i: nat)
    requires Sys.TablesOk(t) && i < |t.orig| && Sys.ScanAt(t, i).Fits?
    ensures Sys.ScanString(t.orig[i], t.values).Fits? && Sys.ScanString(t.trans[i], t.values).Fits?
  {
  }

  /** The entries belong to the accepted pairs. */
  lemma {:induction false} EntriesAccepted(t: Sys.Tables, k: nat)
    requires Sys.TablesOk(t) && k <= |t.orig|
    ensures |SysdepEntries(t, k)| == |Sys.Accepted(t, k)|
    ensures forall j :: 0 <= j < |Sys.Accepted(t, k)| ==>
              var i := Sys.Accepted(t, k)[j];
              i < |t.orig| && Sys.ScanAt(t, i).Fits? && SysdepEntries(t, k)[j] == SysdepEntry(t, i)
  {
    hide Sys.ScanAt, Sys.TablesOk, SysdepEntry;
    if k > 0 { EntriesAccepted(t, k - 1); }
  }

  lemma FilledShow(t: Sys.Tables, os: seq<Sys.SysdepStringDesc>, rs: seq<Sys.SysdepStringDesc>, mem: string)
    requires SysdepTablesOk(t) && Sys.Filled(t, os, rs, mem, |t.orig|)
    ensures forall j :: 0 <= j < |os| ==> Sys.InBounds(os[j], |mem|)
    ensures forall j :: 0 <= j < |rs| ==> Sys.InBounds(rs[j], |mem|)
    ensures AllShow(DescsOf(os, mem), DescsOf(rs, mem), SysdepEntries(t, |t.orig|))
  {
    hide Sys.ScanAt, Sys.Accepted, SysdepEntries, SysdepEntry, Sys.Content, Shows;
    EntriesAccepted(t, |t.orig|);
    forall j | 0 <= j < |os|
      ensures Sys.InBounds(os[j], |mem|) && Sys.InBounds(rs[j], |mem|)
      ensures Shows(DescOf(os[j], mem), DescOf(rs[j], mem), SysdepEntries(t, |t.orig|)[j])
    {
      assert Sys.FilledAt(t, os[j], rs[j], mem, Sys.Accepted(t, |t.orig|)[j]);
      FilledShows(t, os[j], rs[j], mem, Sys.Accepted(t, |t.orig|)[j]);
    }
  }

  // ----- What the entries are -----

  /** Exactly the files are refused that have a minor revision but no hash table, or a pair whose original string, or
      with a usable original whose translation, refers to a value that is not listed. */
  lemma InvalidMeaning(f: CatalogueFile)
    requires FileOk(f)
    ensures Invalid(f) <==>
            f.minor != 0 && (f.hash_tab == None || exists i :: 0 <= i < |f.sysdep.orig| && BreaksPair(f.sysdep, i))
  {
    if f.minor > 0 {
      forall i | 0 <= i < |f.sysdep.orig| ensures Sys.ScanAt(f.sysdep, i).Broken? <==> BreaksPair(f.sysdep, i) {
        Sys.ScanMeaning(f.sysdep.orig[i], f.sysdep.values);
        Sys.ScanMeaning(f.sysdep.trans[i], f.sysdep.values);
      }
    }
  }

  ghost predicate BreaksPair(t: Sys.Tables, i: nat)
    requires i < |t.orig|
  {
    || (exists k: nat :: Sys.BreaksAt(t.orig[i], t.values, k))
    || (i < |t.trans| && (exists k: nat :: Sys.BreaksAt(t.trans[i], t.values, k)) && AllValues(t.orig[i], t.values))
  }

  /** A single segment, or all values exist. */
  predicate AllValues(s: Sys.SysdepString, values: Sys.Values) {
    |s.segments| == 1 || forall k :: 0 <= k < |s.segments| - 1 ==> Sys.HasValue(s.segments, values, k)
  }

  /** The entries of a file: the static messages with the bytes of their translations and a null character, and then
      the composed messages and translations of the pairs all of whose values exist, in the order of the file. */
  lemma EntriesMeaning(f: CatalogueFile, k: nat)
    requires FileOk(f) && k < |Entries(f)|
    ensures k < |f.orig_tab| ==>
              k < |f.trans_tab| && f.trans_tab[k].length <= |f.trans_tab[k].bytes|
              && Entries(f)[k] == Entry(CString(f.orig_tab[k].bytes),
                                        f.trans_tab[k].bytes[..f.trans_tab[k].length] + "\0")
    ensures k >= |f.orig_tab| ==>
              && f.minor != 0 && Sys.TablesOk(f.sysdep)
              && |Entries(f)| == |f.orig_tab| + |Sys.Accepted(f.sysdep, |f.sysdep.orig|)|
              && var i := Sys.Accepted(f.sysdep, |f.sysdep.orig|)[k - |f.orig_tab|];
                 i < |f.sysdep.orig| && Sys.ScanAt(f.sysdep, i).Fits? && Entries(f)[k] == SysdepEntry(f.sysdep, i)
    ensures EndsNull(Entries(f)[k].translation)
  {
    hide *;
    if k < |f.orig_tab| {
      StaticEntryMeaning(f, k);
    } else {
      AddedEntryMeaning(f, k);
    }
  }

  lemma StaticEntryMeaning(f: CatalogueFile, k: nat)
    requires FileOk(f) && k < |Entries(f)| && k < |f.orig_tab|
    ensures k < |f.trans_tab| && f.trans_tab[k].length <= |f.trans_tab[k].bytes| && EndsNull(Entries(f)[k].translation)
    ensures Entries(f)[k] == Entry(CString(f.orig_tab[k].bytes), f.trans_tab[k].bytes[..f.trans_tab[k].length] + "\0")
  {
    hide WellFormed, Distinct, CString, AddedEntries, SysdepTablesOk, StaticKeys, Text, StaticOk, EndsNull;
    StaticText(f.trans_tab[k]);
  }

  lemma AddedEntryMeaning(f: CatalogueFile, k: nat)
    requires FileOk(f) && |f.orig_tab| <= k < |Entries(f)|
    ensures f.minor != 0 && Sys.TablesOk(f.sysdep) && EndsNull(Entries(f)[k].translation)
    ensures |Entries(f)| == |f.orig_tab| + |Sys.Accepted(f.sysdep, |f.sysdep.orig|)|
    ensures var i := Sys.Accepted(f.sysdep, |f.sysdep.orig|)[k - |f.orig_tab|];
            i < |f.sysdep.orig| && Sys.ScanAt(f.sysdep, i).Fits? && Entries(f)[k] == SysdepEntry(f.sysdep, i)
  {
    AddedOnly(f, k);
    hide FileOk, SysdepTablesOk, StaticEntries, SysdepEntry, SysdepEntries, Sys.ScanAt, Sys.Accepted, Sys.TablesOk,
      EndsNull;
    EntriesAccepted(f.sysdep, |f.sysdep.orig|);
    SysdepEnds(f.sysdep, Sys.Accepted(f.sysdep, |f.sysdep.orig|)[k - |f.orig_tab|]);
  }

  lemma AddedOnly(f: CatalogueFile, k: nat)
    requires FileOk(f) && |f.orig_tab| <= k < |Entries(f)|
    ensures f.minor > 0 && Sys.TablesOk(f.sysdep) && SysdepTablesOk(f.sysdep)
  {
    hide WellFormed, Distinct, StaticKeys, StaticOk, SysdepEntries, Terminated;
  }

  lemma StaticText(d: Desc)
    requires StaticOk(d)
    ensures d.length < |d.bytes| && Text(d) == d.bytes[..d.length] + "\0" && EndsNull(Text(d))
  {
  }

  lemma SysdepEnds(t: Sys.Tables, i: nat)
    requires SysdepTablesOk(t) && i < |t.orig| && Sys.ScanAt(t, i).Fits?
    ensures EndsNull(SysdepEntry(t, i).translation)
  {
    hide Sys.Decoded, Sys.ScanString, Sys.Content, Terminated;
    FitsBoth(t, i);
    ComposedEnds(t.trans[i], t.values);
  }

  // ----- Loading -----

  /** The messages of the system-dependent pairs. */
  ghost function AddedKeysOf(f: CatalogueFile): seq<string>
    requires FileOk(f)
  {
    Msgids(AddedEntries(f))
  }

  /** Every insertion into the hash table comes to an end. */
  ghost predicate LoadEnds(f: CatalogueFile)
    requires FileOk(f)
  {
    f.hash_tab.Some? ==> AllStop(f.hash_tab.value, StaticKeys(f), AddedKeysOf(f))
  }

  /** The loaded catalogue shows the entries of the file, and has their index. */
  ghost predicate IsLoaded(f: CatalogueFile, l: Loaded)
    requires FileOk(f)
  {
    var d := l.domain;
    && d.orig_tab == f.orig_tab && l.trans_tab == f.trans_tab
    && AllShow(d.orig_sysdep_tab, l.trans_sysdep_tab, AddedEntries(f))
    && d.hash_tab == (if f.hash_tab.None? then None
                      else Some(Augment(f.hash_tab.value, StaticKeys(f), AddedKeysOf(f))))
  }

  /** The messages of composed strings, as the insertion into the hash table sees them. */
  function CStringsOf(ds: seq<Desc>): seq<string> { seq(|ds|, j requires 0 <= j < |ds| => CString(ds[j].bytes)) }

  lemma ShownKeys(os: seq<Desc>, rs: seq<Desc>, es: seq<Entry>)
    requires AllShow(os, rs, es)
    ensures CStringsOf(os) == Msgids(es)
  {
    hide CString, SysdepOk;
  }

  /** Both passes over the system-dependent strings, and the augmented hash table. */
  method LoadSysdep(f: CatalogueFile) returns (r: Option<Loaded>)
    requires FileOk(f) && f.minor > 0 && f.hash_tab.Some? && LoadEnds(f)
    ensures r.None? <==> Sys.AnyBroken(f.sysdep, |f.sysdep.orig|)
    ensures r.Some? ==> IsLoaded(f, r.value)
  {
    hide WellFormed, Distinct, Sys.AnyBroken, AllShow, Augment, AllStop, Sys.Accepted, Sys.Need, Sys.Filled,
      Sys.TablesOk;
    TablesPart(f);
    var sizes := Sys.SizingPass(f.sysdep, |f.hash_tab.value|);
    match sizes
    case None => return None;
    case Some(sizes) =>
      var tab := f.hash_tab.value;
      var (n_inmem_sysdep_strings, memneed) := sizes;
      if n_inmem_sysdep_strings == 0 {
        NothingKept(f.sysdep);
        assert AddedEntries(f) == [];
        NothingAdded(f);
        return Some(Loaded(Domain(f.orig_tab, [], f.hash_tab), f.trans_tab, []));
      }
      var mem := new char[memneed];
      var os, rs := Sys.FillPass(f.sysdep, mem, n_inmem_sysdep_strings, |tab|);
      FilledShow(f.sysdep, os, rs, mem[..]);
      var orig_tab, trans_tab := DescsOf(os, mem[..]), DescsOf(rs, mem[..]);
      ShownKeys(orig_tab, trans_tab, SysdepEntries(f.sysdep, |f.sysdep.orig|));
      var inmem_hash_tab := new nat[|tab|];
      AugmentTable(tab, inmem_hash_tab, StaticKeys(f), |f.orig_tab|, CStringsOf(orig_tab));
      r := Some(Loaded(Domain(f.orig_tab, orig_tab, Some(inmem_hash_tab[..])), f.trans_tab, trans_tab));
  }

  lemma TablesPart(f: CatalogueFile)
    requires FileOk(f)
    ensures f.minor > 0 ==> Sys.TablesOk(f.sysdep) && SysdepTablesOk(f.sysdep)
    ensures f.hash_tab.Some? ==> |f.hash_tab.value| > 2
  {
  }

  lemma NothingKept(t: Sys.Tables)
    requires SysdepTablesOk(t) && |Sys.Accepted(t, |t.orig|)| == 0
    ensures SysdepEntries(t, |t.orig|) == [] && AllShow([], [], SysdepEntries(t, |t.orig|))
  {
    EntriesAccepted(t, |t.orig|);
  }

  lemma NothingAdded(f: CatalogueFile)
    requires FileOk(f) && f.hash_tab.Some? && AddedEntries(f) == []
    ensures Augment(f.hash_tab.value, StaticKeys(f), AddedKeysOf(f)) == f.hash_tab.value
  {
  }

  lemma NoSysdepPart(f: CatalogueFile)
    requires FileOk(f) && SysdepCount(f) == 0 && (f.minor > 0 ==> f.hash_tab.Some?)
    ensures !Invalid(f) && IsLoaded(f, Loaded(Domain(f.orig_tab, [], f.hash_tab), f.trans_tab, []))
  {
    assert AddedEntries(f) == [];
    if f.hash_tab.Some? { NothingAdded(f); }
  }

  /** None stands for an invalid file. */
  method Load(f: CatalogueFile) returns (r: Option<Loaded>)
    requires FileOk(f) && LoadEnds(f)
    ensures r.None? <==> Invalid(f)
    ensures r.Some? ==> IsLoaded(f, r.value)
  {
    hide FileOk, LoadEnds, IsLoaded, Sys.AnyBroken;
    if f.minor > 0 {
      if f.hash_tab.None? {
        return None;
      }
      if |f.sysdep.orig| > 0 {
        r := LoadSysdep(f);
        return;
      }
    }
    NoSysdepPart(f);
    r := Some(Loaded(Domain(f.orig_tab, [], f.hash_tab), f.trans_tab, []));
  }

  // ----- Looking up -----

  lemma LoadedKeys(f: CatalogueFile, l: Loaded)
    requires FileOk(f) && IsLoaded(f, l)
    ensures Keys(l.domain) == StaticKeys(f) + AddedKeysOf(f) == Msgids(Entries(f))
  {
    hide Distinct, WellFormed, CString, SysdepOk, Augment, AddedEntries, Text;
    var d, es := l.domain, Entries(f);
    forall k | 0 <= k < |es|
      ensures Keys(d)[k] == es[k].msgid
    {
      if k >= |f.orig_tab| {
        assert Shows(d.orig_sysdep_tab[k - |f.orig_tab|], l.trans_sysdep_tab[k - |f.orig_tab|], es[k]);
      }
    }
    assert Keys(d) == Msgids(es);
    EntryKeys(f);
  }

  /** The index of a loaded catalogue may be used, and gives what a linear scan of the entries gives. */
  lemma LoadedIndex(f: CatalogueFile, l: Loaded, msgid: string)
    requires FileOk(f) && IsLoaded(f, l) && !Invalid(f) && LoadEnds(f)
    ensures WellFormed(l.domain)
    ensures match l.domain.hash_tab
            case Some(tab) => Find(tab, Keys(l.domain), msgid) == LinearScan(Keys(l.domain), msgid)
            case None => true
  {
    hide Distinct, Complete, Sound, Augment, AllStop, Ascending, LinearScan, Find, Keys, AddedKeysOf, StaticOk,
      SysdepOk;
    LoadedKeys(f, l);
    LoadedDecoded(f, l);
    match f.hash_tab {
      case Some(tab) =>
        FindAgrees(tab, StaticKeys(f), msgid);
        AugmentKeeps(tab, StaticKeys(f), AddedKeysOf(f));
        AugmentScans(tab, StaticKeys(f), AddedKeysOf(f), msgid);
      case None =>
        assert l.domain == StaticPart(f);
    }
  }

  lemma LoadedDecoded(f: CatalogueFile, l: Loaded)
    requires FileOk(f) && IsLoaded(f, l)
    ensures Decoded(l.domain)
  {
    hide Distinct, StaticOk, SysdepOk, TableOk, Ascending, CString, Keys, Augment;
    var d := l.domain;
    forall i | 0 <= i < |d.orig_sysdep_tab|
      ensures SysdepOk(d.orig_sysdep_tab[i])
    {
      assert Shows(d.orig_sysdep_tab[i], l.trans_sysdep_tab[i], AddedEntries(f)[i]);
    }
  }

  /** The number found leads to the translation of the entry with this number. */
  lemma LoadedTranslation(f: CatalogueFile, l: Loaded, act: nat)
    requires FileOk(f) && IsLoaded(f, l) && act < |Entries(f)|
    ensures |Entries(f)| == |f.orig_tab| + |l.trans_sysdep_tab|
    ensures act < |f.orig_tab| ==> StaticOk(l.trans_tab[act]) && Entries(f)[act].translation == Text(l.trans_tab[act])
    ensures act >= |f.orig_tab| ==>
              var r := l.trans_sysdep_tab[act - |f.orig_tab|];
              r.length <= |r.bytes| && Entries(f)[act].translation == r.bytes[..r.length]
  {
    hide Distinct, WellFormed, Augment, CString, AddedEntries, Text, StaticOk, SysdepTablesOk, SysdepOk, AddedKeysOf;
    if act >= |f.orig_tab| {
      var j := act - |f.orig_tab|;
      assert Shows(l.domain.orig_sysdep_tab[j], l.trans_sysdep_tab[j], AddedEntries(f)[j]);
      ShowsText(l.domain.orig_sysdep_tab[j], l.trans_sysdep_tab[j], AddedEntries(f)[j]);
    }
  }

  lemma ShowsText(o: Desc, r: Desc, e: Entry)
    requires Shows(o, r, e)
    ensures r.length <= |r.bytes| && r.bytes[..r.length] == e.translation
  {
  }

  /** The search for `msgid` in the loaded catalogue comes to an end. */
  ghost predicate FindEnds(f: CatalogueFile, msgid: string)
    requires FileOk(f)
  {
    match f.hash_tab
    case Some(tab) => SearchEnds(Augment(tab, StaticKeys(f), AddedKeysOf(f)), Msgids(Entries(f)), msgid)
    case None => true
  }

  lemma LoadedLookupEnds(f: CatalogueFile, l: Loaded, msgid: string)
    requires FileOk(f) && IsLoaded(f, l) && WellFormed(l.domain) && FindEnds(f, msgid)
    ensures LookupEnds(l.domain, msgid)
  {
    hide SearchEnds, Keys, Augment, WellFormed, Distinct, AllShow, AddedKeysOf, Entries;
    LoadedKeys(f, l);
  }

  /** `_nl_find_msg` on a loaded catalogue: the bytes of the translation, before conversion. */
  method FindMsg(l: Loaded, msgid: string, ghost f: CatalogueFile) returns (result: Option<string>)
    requires FileOk(f) && IsLoaded(f, l) && !Invalid(f) && LoadEnds(f) && FindEnds(f, msgid)
    ensures result == FirstEntry(Entries(f), msgid)
  {
    hide FileOk, IsLoaded, Invalid, LoadEnds, WellFormed, LookupEnds, FindEnds, FirstEntry, Entries, Msgids, LinearScan,
      Find, Keys, Distinct;
    LoadedKeys(f, l);
    LoadedIndex(f, l, msgid);
    LoadedLookupEnds(f, l, msgid);
    FirstEntryScans(Entries(f), msgid);
    var act := Catalogue.Lookup(l.domain, msgid);
    match act
    case None => result := None;
    case Some(act) =>
      LoadedTranslation(f, l, act);
      LoadedTables(f, l);
      if act < |l.domain.orig_tab| {
        var r := l.trans_tab[act];
        result := Some(r.bytes[..r.length + 1]);
      } else {
        var r := l.trans_sysdep_tab[act - |l.domain.orig_tab|];
        result := Some(r.bytes[..r.length]);
      }
  }

  lemma LoadedTables(f: CatalogueFile, l: Loaded)
    requires FileOk(f) && IsLoaded(f, l)
    ensures l.domain.orig_tab == f.orig_tab && |l.trans_tab| == |f.orig_tab|
  {
  }

  /** From the file to the translation: the first entry for the message decides, whether it stands in the file
      or is composed. */
  method Translate(f: CatalogueFile, msgid: string) returns (result: Option<string>)
    requires FileOk(f) && LoadEnds(f) && FindEnds(f, msgid)
    ensures result == if Invalid(f) then None else FirstEntry(Entries(f), msgid)
  {
    hide FileOk, LoadEnds, FindEnds, Invalid, IsLoaded, FirstEntry, Entries;
    var loaded := Load(f);
    match loaded
    case None => result := None;
    case Some(l) => result := FindMsg(l, msgid, f);
  }

  // ----- When loading and looking up come to an end -----

  /** A table of prime size with more empty slots than added strings is enough for both. */
  lemma PrimeEnds(f: CatalogueFile, msgid: string)
    requires FileOk(f) && f.hash_tab.Some? && Prime(|f.hash_tab.value|)
    requires Free(f.hash_tab.value) > |AddedEntries(f)|
    ensures LoadEnds(f) && FindEnds(f, msgid)
  {
    hide Prime, Keys, Free, Sound, Complete, Distinct, AllStop, Augment, AddedEntries, StaticEntries;
    var tab, keys, added := f.hash_tab.value, StaticKeys(f), AddedKeysOf(f);
    AllStopIff(tab, keys, added);
    AugmentKeeps(tab, keys, added);
    FreeMeansEmpty(Augment(tab, keys, added));
    EntryKeys(f);
    SearchEndsIff(Augment(tab, keys, added), keys + added, msgid);
  }

  lemma EntryKeys(f: CatalogueFile)
    requires FileOk(f)
    ensures StaticKeys(f) + AddedKeysOf(f) == Msgids(Entries(f))
  {
    hide Distinct, WellFormed, CString, AddedEntries, Text;
  }

  /** Every accepted pair can be looked up: its composed message is found, and unless an earlier entry has the
      same message, it gives the composed translation. */
  lemma PairsAreFound(f: CatalogueFile, j: nat)
    requires FileOk(f) && j < |AddedEntries(f)|
    ensures var e := AddedEntries(f)[j];
            && FirstEntry(Entries(f), e.msgid).Some?
            && ((forall i :: 0 <= i < |f.orig_tab| + j ==> Entries(f)[i].msgid != e.msgid) ==>
                  FirstEntry(Entries(f), e.msgid) == Some(e.translation))
  {
    hide FileOk, AddedEntries, LinearScan, FirstEntry, StaticEntries;
    var es := Entries(f);
    var e := es[|f.orig_tab| + j];
    assert e == AddedEntries(f)[j];
    FirstEntryScans(es, e.msgid);
    assert Msgids(es)[|f.orig_tab| + j] == e.msgid;
    FirstOfScan(Msgids(es), e.msgid);
  }

  /** A linear scan finds the first. */
  lemma {:induction false} FirstOfScan(keys: seq<string>, msgid: string)
    ensures var k := LinearScan(keys, msgid);
            k.Some? ==> k.value < |keys| && keys[k.value] == msgid && forall i :: 0 <= i < k.value ==> keys[i] != msgid
  {
    if keys != [] { FirstOfScan(keys[1..], msgid); }
  }
}
