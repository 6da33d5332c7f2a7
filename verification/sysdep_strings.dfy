/** The two passes of `_nl_load_domain` over system-dependent strings: one computes how much
    memory they need, the other one composes them in that memory. */
module SysdepStrings {
  import opened Options

  const SEGMENTS_END: nat := 0xffff_ffff

  /** The sizes of a hash table slot and of a `struct sysdep_string_desc` of a 64-bit system. */
  const SLOT_SIZE: nat := 4
  const DESC_SIZE: nat := 16

  datatype SegmentPair = SegmentPair(segsize: nat, sysdepref: nat)

  /** A string of the file: the static characters at its offset, and how they alternate with
      the values of system-dependent segments. */
  datatype SysdepString = SysdepString(static_segments: string, segments: seq<SegmentPair>)

  /** The values of the segments; None is an undefined segment. */
  type Values = seq<Option<string>>

  /** The static characters that pairs `i`, `i + 1`, ... take. */
  function StaticSize(segs: seq<SegmentPair>, i: nat): nat
    decreases |segs| - i
  {
    if i >= |segs| then 0 else segs[i].segsize + StaticSize(segs, i + 1)
  }

  /** The list of pairs ends with its first SEGMENTS_END, and the static characters exist. */
  ghost predicate Decoded(s: SysdepString) {
    && s.segments != [] && s.segments[|s.segments| - 1].sysdepref == SEGMENTS_END
    && (forall i :: 0 <= i < |s.segments| - 1 ==> s.segments[i].sysdepref != SEGMENTS_END)
    && StaticSize(s.segments, 0) <= |s.static_segments|
  }

  // ----- What the passes decide -----

  /** `Broken` makes the whole file invalid, `Undefined` drops the pair of strings. */
  datatype Scan = Broken | Undefined | Fits(need: nat)

  function ScanFrom(segs: seq<SegmentPair>, values: Values, i: nat): Scan
    decreases |segs| - i
  {
    if i >= |segs| then Fits(0)
    else
      var p := segs[i];
      if p.sysdepref == SEGMENTS_END then Fits(p.segsize)
      else if p.sysdepref >= |values| then Broken
      else if values[p.sysdepref].None? then Undefined
      else
        match ScanFrom(segs, values, i + 1)
        case Fits(n) => Fits(p.segsize + |values[p.sysdepref].value| + n)
        case Undefined => Undefined
        case Broken => Broken
  }

  /** A string with a single static segment needs no memory. */
  function ScanString(s: SysdepString, values: Values): Scan
    requires s.segments != []
  {
    if s.segments[0].sysdepref == SEGMENTS_END then Fits(0) else ScanFrom(s.segments, values, 0)
  }

  /** The translation is looked at only if the original string is valid. */
  function ScanPair(o: SysdepString, t: SysdepString, values: Values): Scan
    requires o.segments != [] && t.segments != []
  {
    match ScanString(o, values)
    case Broken => Broken
    case Undefined => Undefined
    case Fits(a) =>
      match ScanString(t, values)
      case Broken => Broken
      case Undefined => Undefined
      case Fits(b) => Fits(a + b)
  }

  datatype Tables = Tables(orig: seq<SysdepString>, trans: seq<SysdepString>, values: Values)

  ghost predicate TablesOk(t: Tables) {
    && |t.orig| == |t.trans|
    && (forall i :: 0 <= i < |t.orig| ==> Decoded(t.orig[i]))
    && (forall i :: 0 <= i < |t.trans| ==> Decoded(t.trans[i]))
  }

  ghost function ScanAt(t: Tables, i: nat): Scan
    requires TablesOk(t) && i < |t.orig|
  {
    ScanPair(t.orig[i], t.trans[i], t.values)
  }

  /** The pairs among the first `k` that are kept. */
  ghost function Accepted(t: Tables, k: nat): seq<nat>
    requires TablesOk(t) && k <= |t.orig|
  {
    if k == 0 then [] else Accepted(t, k - 1) + if ScanAt(t, k - 1).Fits? then [k - 1] else []
  }

  /** The bytes that they need. */
  ghost function Need(t: Tables, k: nat): nat
    requires TablesOk(t) && k <= |t.orig|
  {
    if k == 0 then 0 else Need(t, k - 1) + match ScanAt(t, k - 1) case Fits(n) => n case _ => 0
  }

  /** The bytes of the two descriptor arrays and of the hash table that precede the strings. */
  function TablesSize(n_inmem_sysdep_strings: nat, hash_size: nat): nat {
    2 * n_inmem_sysdep_strings * DESC_SIZE + hash_size * SLOT_SIZE
  }

  ghost predicate AnyBroken(t: Tables, k: nat)
    requires TablesOk(t) && k <= |t.orig|
  {
    exists i :: 0 <= i < k && ScanAt(t, i).Broken?
  }

  lemma {:induction false} NeedGrows(t: Tables, j: nat, k: nat)
    requires TablesOk(t) && j <= k <= |t.orig|
    ensures Need(t, j) <= Need(t, k) && Accepted(t, j) <= Accepted(t, k)
  {
    if j < k {
      NeedGrows(t, j, k - 1);
    }
  }

  // ----- What a composed string is -----

  /** Static segment, value, static segment, ... from pair `i` on; `rest` are the static
      characters that are left. */
  function ContentFrom(segs: seq<SegmentPair>, values: Values, i: nat, rest: string): string
    requires StaticSize(segs, i) <= |rest| && ScanFrom(segs, values, i).Fits?
    decreases |segs| - i
  {
    if i >= |segs| then ""
    else
      var p := segs[i];
      if p.sysdepref == SEGMENTS_END then rest[..p.segsize]
      else rest[..p.segsize] + values[p.sysdepref].value + ContentFrom(segs, values, i + 1, rest[p.segsize..])
  }

  ghost function Content(s: SysdepString, values: Values): string
    requires Decoded(s) && ScanString(s, values).Fits?
  {
    if s.segments[0].sysdepref == SEGMENTS_END then s.static_segments[..s.segments[0].segsize]
    else ContentFrom(s.segments, values, 0, s.static_segments)
  }

  /** The sizing pass reserves exactly the length of the composed string. */
  lemma {:induction false} ContentSize(segs: seq<SegmentPair>, values: Values, i: nat, rest: string)
    requires StaticSize(segs, i) <= |rest| && ScanFrom(segs, values, i).Fits?
    ensures |ContentFrom(segs, values, i, rest)| == ScanFrom(segs, values, i).need
    decreases |segs| - i
  {
    if i < |segs| && segs[i].sysdepref != SEGMENTS_END {
      ContentSize(segs, values, i + 1, rest[segs[i].segsize..]);
    }
  }

  /** Where the static characters of pair `k` begin. */
  function StaticStart(segs: seq<SegmentPair>, k: nat): nat
    requires k <= |segs|
  {
    if k == 0 then 0 else StaticStart(segs, k - 1) + segs[k - 1].segsize
  }

  /** The value of pair `i` exists. */
  predicate HasValue(segs: seq<SegmentPair>, values: Values, i: nat)
    requires i < |segs|
  {
    segs[i].sysdepref < |values| && values[segs[i].sysdepref].Some?
  }

  /** The value of pair `i` is not even listed, and all values before exist. */
  predicate BreaksAt(s: SysdepString, values: Values, i: nat) {
    && i < |s.segments| - 1 && s.segments[i].sysdepref >= |values|
    && forall j :: 0 <= j < i ==> HasValue(s.segments, values, j)
  }

  /** The first `k` static segments, each with its value behind it. */
  function FrontText(s: SysdepString, values: Values, k: nat): string
    requires k <= |s.segments| && forall i :: 0 <= i < k ==> HasValue(s.segments, values, i)
    requires StaticStart(s.segments, k) <= |s.static_segments|
  {
    if k == 0 then ""
    else
      assert HasValue(s.segments, values, k - 1);
      FrontText(s, values, k - 1) + s.static_segments[StaticStart(s.segments, k - 1)..StaticStart(s.segments, k)]
      + values[s.segments[k - 1].sysdepref].value
  }

  lemma {:induction false} StaticParts(segs: seq<SegmentPair>, k: nat)
    requires k <= |segs|
    ensures StaticStart(segs, k) + StaticSize(segs, k) == StaticSize(segs, 0)
  {
    if k > 0 { StaticParts(segs, k - 1); }
  }

  /** A string is usable exactly if it has one segment only or all its values exist; it breaks the file exactly if the
      first value that does not exist is not even listed. */
  lemma ScanMeaning(s: SysdepString, values: Values)
    requires Decoded(s)
    ensures var n := |s.segments| - 1;
            && (ScanString(s, values).Fits? <==> n == 0 || forall i :: 0 <= i < n ==> HasValue(s.segments, values, i))
            && (ScanString(s, values).Broken? <==>
                  exists i: nat :: BreaksAt(s, values, i))
  {
    if |s.segments| > 1 { ScanFromMeaning(s, values, 0); }
  }

  lemma {:induction false} ScanFromMeaning(s: SysdepString, values: Values, k: nat)
    requires Decoded(s) && k < |s.segments|
    requires forall i :: 0 <= i < k ==> HasValue(s.segments, values, i)
    ensures var n := |s.segments| - 1;
            && (ScanFrom(s.segments, values, k).Fits? <==> forall i :: 0 <= i < n ==> HasValue(s.segments, values, i))
            && (ScanFrom(s.segments, values, k).Broken? <==>
                  exists i: nat :: BreaksAt(s, values, i))
    decreases |s.segments| - k
  {
    if k < |s.segments| - 1 {
      if HasValue(s.segments, values, k) {
        ScanFromMeaning(s, values, k + 1);
      } else {
        FirstMissing(s, values, k);
      }
    } else {
      NothingMissing(s, values);
    }
  }

  lemma NothingMissing(s: SysdepString, values: Values)
    requires forall i :: 0 <= i < |s.segments| - 1 ==> HasValue(s.segments, values, i)
    ensures forall i: nat :: !BreaksAt(s, values, i)
  {
    forall i: nat ensures !BreaksAt(s, values, i) {
      if BreaksAt(s, values, i) { MissingEarlier(s, values, i); }
    }
  }

  lemma FirstMissing(s: SysdepString, values: Values, k: nat)
    requires k < |s.segments| - 1 && !HasValue(s.segments, values, k)
    requires forall i :: 0 <= i < k ==> HasValue(s.segments, values, i)
    ensures s.segments[k].sysdepref >= |values| <==> exists i: nat :: BreaksAt(s, values, i)
  {
    if s.segments[k].sysdepref >= |values| { assert BreaksAt(s, values, k); }
    forall i: nat | BreaksAt(s, values, i) ensures i == k {
      if i < k { MissingEarlier(s, values, i); }
    }
  }

  lemma MissingEarlier(s: SysdepString, values: Values, i: nat)
    requires BreaksAt(s, values, i)
    ensures i < |s.segments| && !HasValue(s.segments, values, i)
  {
  }

  lemma {:induction false} FrontThenRest(s: SysdepString, values: Values, k: nat)
    requires Decoded(s) && k < |s.segments| && StaticStart(s.segments, k) <= |s.static_segments|
    requires forall i :: 0 <= i < |s.segments| - 1 ==> HasValue(s.segments, values, i)
    requires ScanFrom(s.segments, values, 0).Fits? && ScanFrom(s.segments, values, k).Fits?
    requires StaticSize(s.segments, k) <= |s.static_segments[StaticStart(s.segments, k)..]|
    ensures ContentFrom(s.segments, values, 0, s.static_segments)
            == FrontText(s, values, k)
               + ContentFrom(s.segments, values, k, s.static_segments[StaticStart(s.segments, k)..])
  {
    if k == 0 {
      assert s.static_segments[0..] == s.static_segments;
    } else {
      StaticParts(s.segments, k - 1);
      ScanFromMeaning(s, values, k - 1);
      StartNext(s, k);
      hide ContentFrom, ScanFrom, StaticSize, Decoded, StaticStart, FrontText;
      FrontThenRest(s, values, k - 1);
      FrontNext(s, values, k);
    }
  }

  lemma StartNext(s: SysdepString, k: nat)
    requires Decoded(s) && 0 < k < |s.segments|
    ensures StaticStart(s.segments, k - 1) <= |s.static_segments|
    ensures StaticSize(s.segments, k - 1) <= |s.static_segments[StaticStart(s.segments, k - 1)..]|
    ensures s.segments[k - 1].sysdepref != SEGMENTS_END
  {
    StaticParts(s.segments, k - 1);
  }

  /** One static segment and its value more. */
  lemma FrontNext(s: SysdepString, values: Values, k: nat)
    requires 0 < k < |s.segments| && StaticStart(s.segments, k) <= |s.static_segments|
    requires (forall i :: 0 <= i < k ==> HasValue(s.segments, values, i)) && s.segments[k - 1].sysdepref != SEGMENTS_END
    requires StaticStart(s.segments, k - 1) <= |s.static_segments|
    requires ScanFrom(s.segments, values, k - 1).Fits? && ScanFrom(s.segments, values, k).Fits?
    requires StaticSize(s.segments, k - 1) <= |s.static_segments[StaticStart(s.segments, k - 1)..]|
    requires StaticSize(s.segments, k) <= |s.static_segments[StaticStart(s.segments, k)..]|
    ensures FrontText(s, values, k - 1)
            + ContentFrom(s.segments, values, k - 1, s.static_segments[StaticStart(s.segments, k - 1)..])
            == FrontText(s, values, k)
               + ContentFrom(s.segments, values, k, s.static_segments[StaticStart(s.segments, k)..])
  {
    hide ContentFrom, ScanFrom, StaticSize;
    var segs, at := s.segments, StaticStart(s.segments, k - 1);
    var rest := s.static_segments[at..];
    assert rest[..segs[k - 1].segsize] == s.static_segments[at..StaticStart(segs, k)];
    assert rest[segs[k - 1].segsize..] == s.static_segments[StaticStart(segs, k)..];
    ContentStep(segs, values, k - 1, rest);
  }

  /** A composed string: the static segments in the order of the file, each but the last with its value behind it. */
  lemma ContentMeaning(s: SysdepString, values: Values)
    requires Decoded(s) && ScanString(s, values).Fits?
    ensures var n := |s.segments| - 1;
            && (forall i :: 0 <= i < n ==> HasValue(s.segments, values, i))
            && StaticStart(s.segments, n) + s.segments[n].segsize <= |s.static_segments|
            && Content(s, values) == FrontText(s, values, n)
               + s.static_segments[StaticStart(s.segments, n)..StaticStart(s.segments, n) + s.segments[n].segsize]
  {
    var segs, n := s.segments, |s.segments| - 1;
    ScanMeaning(s, values);
    StaticParts(segs, n);
    assert StaticSize(segs, n) == segs[n].segsize + StaticSize(segs, n + 1);
    if n == 0 {
      assert "" + s.static_segments[0..segs[0].segsize] == s.static_segments[..segs[0].segsize];
    } else {
      ScanFromMeaning(s, values, 0);
      ScanFromMeaning(s, values, n);
      FrontThenRest(s, values, n);
      ContentStep(segs, values, n, s.static_segments[StaticStart(segs, n)..]);
    }
  }

  /** The memory of a string: none for a single segment, and else its length. */
  lemma NeedMeaning(s: SysdepString, values: Values)
    requires Decoded(s) && ScanString(s, values).Fits?
    ensures ScanString(s, values).need == if |s.segments| == 1 then 0 else |Content(s, values)|
  {
    if |s.segments| > 1 { ContentSize(s.segments, values, 0, s.static_segments); }
  }

  /** Exactly the pairs with two usable strings are kept, in the order of the file. */
  lemma {:induction false} AcceptedMeaning(t: Tables, k: nat)
    requires TablesOk(t) && k <= |t.orig|
    ensures forall i: nat :: i in Accepted(t, k) <==>
              i < k && ScanString(t.orig[i], t.values).Fits? && ScanString(t.trans[i], t.values).Fits?
    ensures forall a, b :: 0 <= a < b < |Accepted(t, k)| ==> Accepted(t, k)[a] < Accepted(t, k)[b]
  {
    hide ScanString, Decoded;
    if k > 0 {
      AcceptedMeaning(t, k - 1);
      var before := Accepted(t, k - 1);
      forall a, b | 0 <= a < b < |Accepted(t, k)| ensures Accepted(t, k)[a] < Accepted(t, k)[b] {
        assert before[a] in before;
      }
    }
  }

  // ----- The sizing pass -----

  /** One string of the sizing pass. */
  method SizeString(s: SysdepString, values: Values) returns (r: Scan)
    requires Decoded(s)
    ensures r == ScanString(s, values)
  {
    var need: nat := 0;
    if s.segments[0].sysdepref != SEGMENTS_END {
      var p := 0;
      while true
        invariant 0 <= p < |s.segments|
        invariant ScanString(s, values) == match ScanFrom(s.segments, values, p)
                                           case Fits(n) => Fits(need + n)
                                           case Undefined => Undefined
                                           case Broken => Broken
        decreases |s.segments| - p
      {
        need := need + s.segments[p].segsize;
        var sysdepref := s.segments[p].sysdepref;
        if sysdepref == SEGMENTS_END {
          break;
        }
        if sysdepref >= |values| {
          return Broken;
        }
        if values[sysdepref].None? {
          return Undefined;
        }
        need := need + |values[sysdepref].value|;
        p := p + 1;
      }
    }
    return Fits(need);
  }

  /** None if the file is invalid; otherwise the number of pairs that are kept, and the bytes of the
      memory block with their tables and strings. */
  method SizingPass(t: Tables, hash_size: nat) returns (r: Option<(nat, nat)>)
    requires TablesOk(t)
    ensures r.None? <==> AnyBroken(t, |t.orig|)
    ensures r.Some? ==> var n := |Accepted(t, |t.orig|)|;
                        r.value == (n, TablesSize(n, hash_size) + Need(t, |t.orig|))
                        && r.value.1 == 32 * n + 4 * hash_size + Need(t, |t.orig|)
  {
    hide Accepted, Need, AnyBroken, ScanAt, ScanString;
    var n_inmem_sysdep_strings, memneed := 0, hash_size * SLOT_SIZE;
    var i := 0;
    NothingScanned(t);
    while i < |t.orig|
      invariant 0 <= i <= |t.orig| && !AnyBroken(t, i)
      invariant n_inmem_sysdep_strings == |Accepted(t, i)| && memneed == hash_size * SLOT_SIZE + Need(t, i)
    {
      PairScanned(t, i);
      var a := SizeString(t.orig[i], t.values);
      var b := Fits(0);
      if a.Fits? {
        b := SizeString(t.trans[i], t.values);
      }
      if a.Broken? || b.Broken? {
        return None;
      }
      if a.Fits? && b.Fits? {
        n_inmem_sysdep_strings := n_inmem_sysdep_strings + 1;
        memneed := memneed + (a.need + b.need);
      }
      i := i + 1;
    }
    memneed := memneed + 2 * n_inmem_sysdep_strings * DESC_SIZE;
    return Some((n_inmem_sysdep_strings, memneed));
  }

  lemma NothingScanned(t: Tables)
    requires TablesOk(t)
    ensures Accepted(t, 0) == [] && Need(t, 0) == 0 && !AnyBroken(t, 0)
  {
  }

  /** What one more pair means for the sizes. */
  lemma PairScanned(t: Tables, i: nat)
    requires TablesOk(t) && i < |t.orig|
    ensures |t.trans| == |t.orig| && Decoded(t.orig[i]) && Decoded(t.trans[i])
    ensures var a, b := ScanString(t.orig[i], t.values), ScanString(t.trans[i], t.values);
            && (a.Broken? || (a.Fits? && b.Broken?) ==> AnyBroken(t, |t.orig|))
            && (!a.Broken? && (a.Fits? ==> !b.Broken?) && !AnyBroken(t, i) ==> !AnyBroken(t, i + 1))
            && |Accepted(t, i + 1)| == |Accepted(t, i)| + (if a.Fits? && b.Fits? then 1 else 0)
            && Need(t, i + 1) == Need(t, i) + (if a.Fits? && b.Fits? then a.need + b.need else 0)
  {
    hide ScanString;
    var a, b := ScanString(t.orig[i], t.values), ScanString(t.trans[i], t.values);
    assert ScanAt(t, i) == if a.Fits? && b.Fits? then Fits(a.need + b.need) else if a.Fits? then b else a;
  }

  // ----- The fill pass -----

  /** Where a composed string is: in the mapped file or in the reserved memory. */
  datatype Pointer = InFile(bytes: string) | InMemory(offset: nat)

  datatype SysdepStringDesc = SysdepStringDesc(length: nat, pointer: Pointer)

  predicate InBounds(d: SysdepStringDesc, size: nat) {
    match d.pointer
    case InFile(bytes) => d.length <= |bytes|
    case InMemory(offset) => offset + d.length <= size
  }

  /** The string that a descriptor denotes. */
  function Denoted(d: SysdepStringDesc, mem: string): string
    requires InBounds(d, |mem|)
  {
    match d.pointer
    case InFile(bytes) => bytes[..d.length]
    case InMemory(offset) => mem[offset..offset + d.length]
  }

  /** The check that the fill pass repeats: it does not compare `sysdepref` with the number of
      segments, because the sizing pass has done so up to the first undefined segment. */
  method StillValid(s: SysdepString, values: Values) returns (valid: bool)
    requires Decoded(s) && !ScanString(s, values).Broken?
    ensures valid <==> ScanString(s, values).Fits?
  {
    if s.segments[0].sysdepref != SEGMENTS_END {
      var p := 0;
      while true
        invariant 0 <= p < |s.segments|
        invariant !ScanFrom(s.segments, values, p).Broken?
        invariant ScanString(s, values).Fits? <==> ScanFrom(s.segments, values, p).Fits?
        decreases |s.segments| - p
      {
        var sysdepref := s.segments[p].sysdepref;
        if sysdepref == SEGMENTS_END {
          break;
        }
        if values[sysdepref].None? {
          return false;
        }
        p := p + 1;
      }
    }
    return true;
  }

  /** `memcpy (mem, src, n); mem += n` */
  method Append(mem: array<char>, at: nat, src: string) returns (end: nat)
    requires at + |src| <= mem.Length
    modifies mem
    ensures end == at + |src| && mem[..end] == old(mem[..at]) + src
  {
    end := at;
    while end < at + |src|
      invariant at <= end <= at + |src| && mem[..end] == old(mem[..at]) + src[..end - at]
    {
      mem[end] := src[end - at];
      end := end + 1;
    }
  }

  lemma ContentStep(segs: seq<SegmentPair>, values: Values, i: nat, rest: string)
    requires i < |segs| && StaticSize(segs, i) <= |rest| && ScanFrom(segs, values, i).Fits?
    ensures segs[i].segsize <= |rest|
    ensures segs[i].sysdepref == SEGMENTS_END ==> ContentFrom(segs, values, i, rest) == rest[..segs[i].segsize]
    ensures segs[i].sysdepref != SEGMENTS_END ==>
              && segs[i].sysdepref < |values| && values[segs[i].sysdepref].Some?
              && StaticSize(segs, i + 1) <= |rest[segs[i].segsize..]| && ScanFrom(segs, values, i + 1).Fits?
              && ContentFrom(segs, values, i, rest) == rest[..segs[i].segsize] + values[segs[i].sysdepref].value
                                                      + ContentFrom(segs, values, i + 1, rest[segs[i].segsize..])
  {
  }

  /** Copies static segments and values in turn. */
  method Compose(s: SysdepString, values: Values, mem: array<char>, at: nat) returns (end: nat)
    requires Decoded(s) && ScanFrom(s.segments, values, 0).Fits?
    requires at + |ContentFrom(s.segments, values, 0, s.static_segments)| <= mem.Length
    modifies mem
    ensures at <= end <= mem.Length
    ensures mem[..end] == old(mem[..at]) + ContentFrom(s.segments, values, 0, s.static_segments)
  {
    hide ContentFrom, StaticSize, ScanFrom;
    end := at;
    var static_segments := s.static_segments;
    var p := 0;
    ghost var goal := mem[..at] + ContentFrom(s.segments, values, 0, s.static_segments);
    while true
      invariant 0 <= p < |s.segments| && StaticSize(s.segments, p) <= |static_segments|
      invariant ScanFrom(s.segments, values, p).Fits?
      invariant at <= end <= mem.Length && |goal| <= mem.Length
      invariant mem[..end] + ContentFrom(s.segments, values, p, static_segments) == goal
      decreases |s.segments| - p
    {
      var segsize, sysdepref := s.segments[p].segsize, s.segments[p].sysdepref;
      ContentStep(s.segments, values, p, static_segments);
      if segsize > 0 {
        end := Append(mem, end, static_segments[..segsize]);
        static_segments := static_segments[segsize..];
      }
      if sysdepref == SEGMENTS_END {
        return;
      }
      end := Append(mem, end, values[sysdepref].value);
      p := p + 1;
    }
  }

  /** Composes one string at `at`, or points into the file. */
  method FillString(s: SysdepString, values: Values, mem: array<char>, at: nat) returns (d: SysdepStringDesc, end: nat)
    requires Decoded(s) && ScanString(s, values).Fits? && at + ScanString(s, values).need <= mem.Length
    modifies mem
    ensures end == at + ScanString(s, values).need
    ensures mem[..at] == old(mem[..at])
    ensures InBounds(d, end) && Denoted(d, mem[..end]) == Content(s, values)
  {
    if s.segments[0].sysdepref == SEGMENTS_END {
      assert StaticSize(s.segments, 0) == s.segments[0].segsize + StaticSize(s.segments, 1);
      return SysdepStringDesc(s.segments[0].segsize, InFile(s.static_segments)), at;
    }
    ContentSize(s.segments, values, 0, s.static_segments);
    ghost var before := mem[..at];
    end := Compose(s, values, mem, at);
    assert mem[..at] == mem[..end][..at] == before;
    d := SysdepStringDesc(end - at, InMemory(at));
  }

  /** Later writes behind `size` do not change what a descriptor denotes. */
  lemma DenotedStays(d: SysdepStringDesc, mem: string, mem': string, size: nat)
    requires size <= |mem| && size <= |mem'| && mem[..size] == mem'[..size] && InBounds(d, size)
    ensures Denoted(d, mem[..size]) == Denoted(d, mem') == Denoted(d, mem)
  {
    if d.pointer.InMemory? {
      var o := d.pointer.offset;
      assert mem[..size][o..o + d.length] == mem[o..o + d.length];
      assert mem'[..size][o..o + d.length] == mem'[o..o + d.length];
    }
  }

  /** The descriptors composed so far denote the strings of the accepted pairs. */
  ghost predicate Filled(t: Tables, orig_tab: seq<SysdepStringDesc>, trans_tab: seq<SysdepStringDesc>, mem: string,
                         k: nat)
    requires TablesOk(t) && k <= |t.orig|
  {
    && |orig_tab| == |trans_tab| == |Accepted(t, k)|
    && forall j :: 0 <= j < |orig_tab| ==> FilledAt(t, orig_tab[j], trans_tab[j], mem, Accepted(t, k)[j])
  }

  ghost predicate FilledAt(t: Tables, o: SysdepStringDesc, r: SysdepStringDesc, mem: string, i: nat)
    requires TablesOk(t)
  {
    && i < |t.orig| && ScanAt(t, i).Fits? && InBounds(o, |mem|) && InBounds(r, |mem|)
    && Denoted(o, mem) == Content(t.orig[i], t.values) && Denoted(r, mem) == Content(t.trans[i], t.values)
  }

  lemma FilledStays(t: Tables, orig_tab: seq<SysdepStringDesc>, trans_tab: seq<SysdepStringDesc>,
                    mem: string, mem': string, k: nat)
    requires TablesOk(t) && k <= |t.orig| && Filled(t, orig_tab, trans_tab, mem, k) && mem <= mem'
    ensures Filled(t, orig_tab, trans_tab, mem', k)
  {
    forall j | 0 <= j < |orig_tab|
      ensures FilledAt(t, orig_tab[j], trans_tab[j], mem', Accepted(t, k)[j])
    {
      assert FilledAt(t, orig_tab[j], trans_tab[j], mem, Accepted(t, k)[j]);
      assert mem[..|mem|] == mem'[..|mem|] == mem;
      DenotedStays(orig_tab[j], mem, mem', |mem|);
      DenotedStays(trans_tab[j], mem, mem', |mem|);
    }
  }

  /** Both strings of pair `i`. */
  method FillPair(t: Tables, mem: array<char>, at: nat, i: nat)
    returns (o: SysdepStringDesc, r: SysdepStringDesc, end: nat)
    requires TablesOk(t) && i < |t.orig| && ScanAt(t, i).Fits? && at + ScanAt(t, i).need <= mem.Length
    modifies mem
    ensures end == at + ScanAt(t, i).need && mem[..at] == old(mem[..at])
    ensures FilledAt(t, o, r, mem[..end], i)
  {
    var mid;
    o, mid := FillString(t.orig[i], t.values, mem, at);
    ghost var m1 := mem[..mid];
    assert m1[..at] == mem[..at];
    r, end := FillString(t.trans[i], t.values, mem, mid);
    assert mem[..end][..mid] == mem[..mid] == m1;
    assert mem[..at] == m1[..at];
    DenotedStays(o, m1, mem[..end], mid);
  }

  /** Pair `i` behind the pairs that are filled already. */
  method FillNext(t: Tables, mem: array<char>, at: nat, i: nat,
                  orig0: seq<SysdepStringDesc>, trans0: seq<SysdepStringDesc>)
    returns (orig_tab: seq<SysdepStringDesc>, trans_tab: seq<SysdepStringDesc>, end: nat)
    requires TablesOk(t) && i < |t.orig| && ScanAt(t, i).Fits?
    requires at <= at + Need(t, i + 1) - Need(t, i) <= mem.Length && Filled(t, orig0, trans0, mem[..at], i)
    modifies mem
    ensures end == at + Need(t, i + 1) - Need(t, i) && mem[..at] == old(mem[..at])
    ensures Filled(t, orig_tab, trans_tab, mem[..end], i + 1)
  {
    hide FilledAt;
    ghost var before := mem[..at];
    var o, r;
    o, r, end := FillPair(t, mem, at, i);
    assert before <= mem[..end];
    FilledStays(t, orig0, trans0, before, mem[..end], i);
    orig_tab, trans_tab := orig0 + [o], trans0 + [r];
  }

  /** A pair that is not usable adds nothing. */
  lemma Skipped(t: Tables, i: nat, orig_tab: seq<SysdepStringDesc>, trans_tab: seq<SysdepStringDesc>, mem: string)
    requires TablesOk(t) && i < |t.orig| && !ScanAt(t, i).Fits? && Filled(t, orig_tab, trans_tab, mem, i)
    ensures Need(t, i + 1) == Need(t, i) && Filled(t, orig_tab, trans_tab, mem, i + 1)
  {
    hide FilledAt;
  }

  lemma Nothing(t: Tables, mem: string)
    requires TablesOk(t)
    ensures Need(t, 0) == 0 && Filled(t, [], [], mem, 0)
  {
  }

  /** The tests of the fill pass on both strings of a pair. */
  lemma PairValid(t: Tables, i: nat)
    requires TablesOk(t) && i < |t.orig| && !AnyBroken(t, |t.orig|)
    ensures |t.trans| == |t.orig| && Decoded(t.orig[i]) && Decoded(t.trans[i])
            && !ScanString(t.orig[i], t.values).Broken?
    ensures ScanAt(t, i).Fits? <==> ScanString(t.orig[i], t.values).Fits? && ScanString(t.trans[i], t.values).Fits?
    ensures ScanString(t.orig[i], t.values).Fits? ==> !ScanString(t.trans[i], t.values).Broken?
  {
    assert !ScanAt(t, i).Broken?;
  }

  lemma FilledCount(t: Tables, orig_tab: seq<SysdepStringDesc>, trans_tab: seq<SysdepStringDesc>, mem: string, k: nat)
    requires TablesOk(t) && k <= |t.orig| && Filled(t, orig_tab, trans_tab, mem, k)
    ensures |orig_tab| == |Accepted(t, k)|
  {
  }

  /** The fill pass keeps exactly the pairs that the sizing pass counted, writes exactly the
      bytes that it reserved behind the tables, and leaves descriptors of the composed strings. */
  method FillPass(t: Tables, mem: array<char>, n_inmem_sysdep_strings: nat, hash_size: nat)
    returns (orig_tab: seq<SysdepStringDesc>, trans_tab: seq<SysdepStringDesc>)
    requires TablesOk(t) && !AnyBroken(t, |t.orig|)
    requires n_inmem_sysdep_strings == |Accepted(t, |t.orig|)|
    requires mem.Length == TablesSize(n_inmem_sysdep_strings, hash_size) + Need(t, |t.orig|)
    modifies mem
    ensures var n := TablesSize(n_inmem_sysdep_strings, hash_size); mem[..n] == old(mem[..n])
    ensures Filled(t, orig_tab, trans_tab, mem[..], |t.orig|)
    ensures |orig_tab| == n_inmem_sysdep_strings
  {
    hide Filled, ScanAt, ScanString, Accepted, Need, AnyBroken, TablesOk, Decoded, TablesSize;
    orig_tab, trans_tab := [], [];
    var start := TablesSize(n_inmem_sysdep_strings, hash_size);
    Nothing(t, mem[..start]);
    var at, i := start, 0;
    while i < |t.orig|
      invariant 0 <= i <= |t.orig| && at == start + Need(t, i) <= mem.Length
      invariant mem[..start] == old(mem[..start])
      invariant Filled(t, orig_tab, trans_tab, mem[..at], i)
    {
      NeedGrows(t, i + 1, |t.orig|);
      PairValid(t, i);
      var valid := StillValid(t.orig[i], t.values);
      if valid {
        valid := StillValid(t.trans[i], t.values);
      }
      NeedGrows(t, i, i + 1);
      if valid {
        ghost var before := mem[..at];
        assert before[..start] == mem[..start];
        orig_tab, trans_tab, at := FillNext(t, mem, at, i, orig_tab, trans_tab);
        assert mem[..start] == before[..start];
      } else {
        Skipped(t, i, orig_tab, trans_tab, mem[..at]);
      }
      i := i + 1;
    }
    FilledCount(t, orig_tab, trans_tab, mem[..at], i);
    if |orig_tab| != n_inmem_sysdep_strings {
      assert false;
    }
    assert mem[..at] == mem[..];
  }
}
