/** `_nl_make_l10nflist`: the pool of locale files, sorted by name, and the files that each of them
    inherits from. */
module L10nFList {
  import opened Arith
  import opened CStrings
  import opened LocaleMask

  const CEN_REVISION := 1
  const CEN_SPONSOR := 2
  const CEN_SPECIAL := 4
  const XPG_NORM_CODESET := 8
  const XPG_CODESET := 16
  const TERRITORY := 32
  const CEN_AUDIENCE := 64
  const XPG_MODIFIER := 128
  const CEN_SPECIFIC := 71
  const XPG_SPECIFIC := 152

  const PATH_SEPARATOR := ':'

  /** The pieces of a locale name. */
  datatype Parts = Parts(language: string, territory: string, codeset: string, normalized_codeset: string,
                         modifier: string, special: string, sponsor: string, revision: string)

  /** `(mask & flag) != 0`. */
  predicate Has(mask: nat, flag: nat) { And(mask, flag) != 0 }

  // ----- Lists of directories -----

  /** Null-terminated strings one after another. */
  predicate ArgzOk(argz: string) { argz == "" || argz[|argz| - 1] == '\0' }

  function Entries(argz: string): (dirs: seq<string>)
    ensures argz != "" ==> dirs != []
    decreases |argz|
  {
    if argz == "" then []
    else
      var n := |CString(argz)|;
      [CString(argz)] + if n < |argz| then Entries(argz[n + 1..]) else []
  }

  predicate IsAbsolute(language: string) { language != "" && language[0] == '/' }

  /** The directories that count: none when the language is an absolute path. */
  function Directories(dirlist: string, language: string): string {
    if IsAbsolute(language) then "" else dirlist
  }

  // ----- File names -----

  /** The directories, separated, with a slash behind the last one. */
  function DirText(dirs: seq<string>): string {
    if dirs == [] then ""
    else if |dirs| == 1 then dirs[0] + "/"
    else dirs[0] + [PATH_SEPARATOR] + DirText(dirs[1..])
  }

  function Opt(b: bool, s: string): string { if b then s else "" }

  function TerritoryText(mask: nat, p: Parts): string { Opt(Has(mask, TERRITORY), "_" + p.territory) }

  function CodesetText(mask: nat, p: Parts): string { Opt(Has(mask, XPG_CODESET), "." + p.codeset) }

  function NormCodesetText(mask: nat, p: Parts): string {
    Opt(Has(mask, XPG_NORM_CODESET), "." + p.normalized_codeset)
  }

  function ModifierText(mask: nat, p: Parts): string {
    Opt(Has(mask, XPG_MODIFIER) || Has(mask, CEN_AUDIENCE), (if Has(mask, CEN_AUDIENCE) then "+" else "@") + p.modifier)
  }

  function SpecialText(mask: nat, p: Parts): string { Opt(Has(mask, CEN_SPECIAL), "+" + p.special) }

  function SponsorText(mask: nat, p: Parts): string {
    Opt(Has(mask, CEN_SPONSOR) || Has(mask, CEN_REVISION),
        "," + Opt(Has(mask, CEN_SPONSOR), p.sponsor) + Opt(Has(mask, CEN_REVISION), "_" + p.revision))
  }

  /** The name of the file for `mask`: the language with the parts that the mask selects. */
  function FileName(dirs: seq<string>, mask: nat, p: Parts, filename: string): string {
    DirText(dirs) + p.language + TerritoryText(mask, p) + CodesetText(mask, p) + NormCodesetText(mask, p)
    + ModifierText(mask, p) + SpecialText(mask, p) + SponsorText(mask, p) + "/" + filename
  }

  // ----- The order of the pool -----

  class L10nFile {
    const filename: string
    const decided: bool
    const successor: array<L10nFile?>

    constructor (filename: string, decided: bool, capacity: nat)
      ensures this.filename == filename && this.decided == decided
      ensures fresh(successor) && successor.Length == capacity
    {
      this.filename, this.decided := filename, decided;
      successor := new L10nFile?[capacity](_ => null);
    }
  }

  class Pool {
    var files: seq<L10nFile>

    constructor ()
      ensures files == [] && Decreasing(files)
    {
      files := [];
    }
  }

  /** Strictly decreasing by name, so no name occurs twice. */
  predicate Decreasing(files: seq<L10nFile>) {
    forall i, j :: 0 <= i < j < |files| ==> StrCmp(files[i].filename, files[j].filename) > 0
  }

  predicate Named(files: seq<L10nFile>, name: string) {
    exists i :: 0 <= i < |files| && files[i].filename == name
  }

  /** The place of `name`: of the file with this name, or where it has to be inserted. */
  method Find(files: seq<L10nFile>, name: string) returns (found: bool, k: nat)
    requires Decreasing(files)
    ensures k <= |files| && (found <==> Named(files, name))
    ensures found ==> k < |files| && files[k].filename == name
    ensures !found ==> (forall i :: 0 <= i < k ==> StrCmp(files[i].filename, name) > 0)
    ensures !found ==> (forall i :: k <= i < |files| ==> StrCmp(files[i].filename, name) < 0)
  {
    k := 0;
    while k < |files|
      invariant k <= |files| && forall i :: 0 <= i < k ==> StrCmp(files[i].filename, name) > 0
    {
      var compare := StrCmp(files[k].filename, name);
      StrCmpEqual(files[k].filename, name);
      if compare == 0 {
        return true, k;
      }
      if compare < 0 {
        forall i | k < i < |files| ensures StrCmp(files[i].filename, name) < 0 {
          StrCmpFlip(files[i].filename, files[k].filename);
          StrCmpFlip(files[k].filename, files[i].filename);
          StrCmpTransitive(files[i].filename, files[k].filename, name);
        }
        break;
      }
      k := k + 1;
    }
    forall i | 0 <= i < |files| ensures files[i].filename != name { StrCmpEqual(files[i].filename, name); }
    found := false;
  }

  lemma InsertKeeps(files: seq<L10nFile>, k: nat, r: L10nFile)
    requires Decreasing(files) && k <= |files|
    requires forall i :: 0 <= i < k ==> StrCmp(files[i].filename, r.filename) > 0
    requires forall i :: k <= i < |files| ==> StrCmp(files[i].filename, r.filename) < 0
    ensures Decreasing(files[..k] + [r] + files[k..])
  {
    var all := files[..k] + [r] + files[k..];
    forall i, j | 0 <= i < j < |all| ensures StrCmp(all[i].filename, all[j].filename) > 0 {
      if i == k { StrCmpFlip(all[j].filename, r.filename); }
    }
  }

  lemma DecreasingDistinct(files: seq<L10nFile>, i: nat, j: nat)
    requires Decreasing(files) && i < j < |files|
    ensures files[i].filename != files[j].filename
  {
    StrCmpEqual(files[i].filename, files[j].filename);
  }

  // ----- Walking over a list of directories -----

  /** The rest of a list behind its first string. */
  lemma ArgzRest(argz: string)
    requires ArgzOk(argz) && argz != ""
    ensures var n := |CString(argz)|;
            n < |argz| && argz[n] == '\0' && ArgzOk(argz[n + 1..])
            && Entries(argz) == [CString(argz)] + Entries(argz[n + 1..])
  {
    assert argz[|argz| - 1] == '\0';
  }

  /** The same from index `cp` on, character by character. */
  lemma ArgzStep(argz: string, cp: nat)
    requires cp < |argz| && ArgzOk(argz[cp..])
    ensures var n := |CString(argz[cp..])|;
            && cp + n < |argz| && argz[cp + n] == '\0' && ArgzOk(argz[cp + n + 1..])
            && (forall i :: cp <= i < cp + n ==> argz[i] != '\0')
            && Entries(argz[cp..]) == [CString(argz[cp..])] + Entries(argz[cp + n + 1..])
  {
    hide Entries;
    var rest := argz[cp..];
    ArgzRest(rest);
    var n := |CString(rest)|;
    assert rest[n + 1..] == argz[cp + n + 1..];
    forall i | cp <= i < cp + n ensures argz[i] != '\0' { assert argz[i] == rest[..n][i - cp]; }
  }

  /** `argz_count__`. */
  method ArgzCount(argz: string) returns (count: nat)
    requires ArgzOk(argz)
    ensures count == |Entries(argz)|
  {
    hide Entries, ArgzOk, CString;
    var cp := 0;
    count := 0;
    assert argz[0..] == argz;
    while cp < |argz|
      invariant cp <= |argz| && ArgzOk(argz[cp..]) && count + |Entries(argz[cp..])| == |Entries(argz)|
    {
      ArgzStep(argz, cp);
      cp := cp + |CString(argz[cp..])| + 1;
      count := count + 1;
    }
    NoEntries(argz[cp..]);
  }

  lemma NoEntries(argz: string)
    ensures argz == "" <==> Entries(argz) == []
  {
  }

  /** The list with a separator for each null character but the last. */
  function Separated(argz: string): (r: string)
    ensures |r| == |argz|
  {
    seq(|argz|, i requires 0 <= i < |argz| => if argz[i] == '\0' && i < |argz| - 1 then PATH_SEPARATOR else argz[i])
  }

  /** The same with a slash for the last null character. */
  function Slashed(argz: string): string
    requires argz != ""
  {
    Separated(argz)[|argz| - 1 := '/']
  }

  lemma SlashedRest(argz: string, n: nat)
    requires n < |argz| && argz[n] == '\0' && forall i :: 0 <= i < n ==> argz[i] != '\0'
    ensures Slashed(argz) ==
            argz[..n] + if n + 1 == |argz| then "/" else [PATH_SEPARATOR] + Slashed(argz[n + 1..])
  {
    var rest := argz[n + 1..];
    if n + 1 < |argz| {
      forall i | 0 <= i < |argz| ensures Slashed(argz)[i] == (argz[..n] + [PATH_SEPARATOR] + Slashed(rest))[i] {
        if i > n { assert argz[i] == rest[i - n - 1]; }
      }
      assert argz[..n] + [PATH_SEPARATOR] + Slashed(rest) == argz[..n] + ([PATH_SEPARATOR] + Slashed(rest));
    }
  }

  lemma DirTextCons(d: string, dirs: seq<string>)
    ensures DirText([d] + dirs) == d + if dirs == [] then "/" else [PATH_SEPARATOR] + DirText(dirs)
  {
    assert ([d] + dirs)[1..] == dirs;
  }

  /** This is the text of the directories. */
  lemma {:induction false} SlashedIsDirText(argz: string)
    requires ArgzOk(argz) && argz != ""
    ensures DirText(Entries(argz)) == Slashed(argz)
    decreases |argz|
  {
    hide ArgzOk, Entries, DirText, Slashed;
    ArgzStep(argz, 0);
    assert argz[0..] == argz;
    var n := |CString(argz)|;
    var rest := argz[n + 1..];
    NoEntries(rest);
    DirTextCons(CString(argz), Entries(rest));
    SlashedRest(argz, n);
    if rest != "" { SlashedIsDirText(rest); }
  }

  /** `argz_stringify__` on the first `len` characters of `buf`. */
  method ArgzStringify(buf: array<char>, len: nat, ghost argz: string)
    requires ArgzOk(argz) && |argz| == len <= buf.Length && buf[..len] == argz
    modifies buf
    ensures buf[..len] == Separated(argz)
  {
    hide Entries, ArgzOk, CString;
    var cp := 0;
    assert argz[0..] == argz;
    while cp < len
      invariant cp <= len && ArgzOk(argz[cp..])
      invariant forall i :: 0 <= i < cp ==> buf[i] == Separated(argz)[i]
      invariant forall i :: cp <= i < len ==> buf[i] == argz[i]
    {
      ArgzStep(argz, cp);
      assert buf[cp..len] == argz[cp..];
      var n := |CString(buf[cp..len])|;
      if cp + n + 1 < len {
        buf[cp + n] := PATH_SEPARATOR;
      }
      cp := cp + n + 1;
    }
  }

  // ----- Building a file name -----

  /** The size that is allocated for a file name. */
  function NameSize(dirlist: string, mask: nat, p: Parts, filename: string): nat {
    |dirlist| + |p.language|
    + PartSize(Has(mask, TERRITORY), p.territory) + PartSize(Has(mask, XPG_CODESET), p.codeset)
    + PartSize(Has(mask, XPG_NORM_CODESET), p.normalized_codeset)
    + PartSize(Has(mask, XPG_MODIFIER) || Has(mask, CEN_AUDIENCE), p.modifier)
    + PartSize(Has(mask, CEN_SPECIAL), p.special) + SponsorSize(mask, p) + 1 + |filename| + 1
  }

  /** A part and the character before it. */
  function PartSize(present: bool, part: string): nat { if present then |part| + 1 else 0 }

  function SponsorSize(mask: nat, p: Parts): nat {
    if Has(mask, CEN_SPONSOR) || Has(mask, CEN_REVISION)
    then 1 + (if Has(mask, CEN_SPONSOR) then |p.sponsor| else 0) + PartSize(Has(mask, CEN_REVISION), p.revision)
    else 0
  }

  lemma PartLengths(mask: nat, p: Parts)
    ensures |TerritoryText(mask, p)| == PartSize(Has(mask, TERRITORY), p.territory)
    ensures |CodesetText(mask, p)| == PartSize(Has(mask, XPG_CODESET), p.codeset)
    ensures |NormCodesetText(mask, p)| == PartSize(Has(mask, XPG_NORM_CODESET), p.normalized_codeset)
    ensures |ModifierText(mask, p)| == PartSize(Has(mask, XPG_MODIFIER) || Has(mask, CEN_AUDIENCE), p.modifier)
    ensures |SpecialText(mask, p)| == PartSize(Has(mask, CEN_SPECIAL), p.special)
  {
    hide Has;
  }

  lemma SponsorLength(mask: nat, p: Parts)
    ensures |SponsorText(mask, p)| == SponsorSize(mask, p)
  {
    hide Has;
  }

  /** It is exactly what the name and its null character need. */
  lemma NameSizeExact(dirlist: string, mask: nat, p: Parts, filename: string)
    requires ArgzOk(dirlist)
    ensures |FileName(Entries(dirlist), mask, p, filename)| + 1 == NameSize(dirlist, mask, p, filename)
    ensures |DirText(Entries(dirlist))| == |dirlist|
  {
    hide Has, Entries, DirText, TerritoryText, CodesetText, NormCodesetText, ModifierText, SpecialText, SponsorText,
      PartSize, SponsorSize;
    if dirlist == "" {
      NoDirText();
    } else {
      SlashedIsDirText(dirlist);
    }
    PartLengths(mask, p);
    SponsorLength(mask, p);
  }

  lemma NoDirText()
    ensures Entries("") == [] && DirText([]) == ""
  {
  }

  method CopyDirs(buf: array<char>, dirlist: string) returns (cp: nat)
    requires ArgzOk(dirlist) && |dirlist| <= buf.Length
    modifies buf
    ensures cp == |dirlist| && buf[..cp] == DirText(Entries(dirlist))
  {
    hide ArgzOk, Entries, DirText;
    cp := 0;
    NoDirText();
    if |dirlist| > 0 {
      for i := 0 to |dirlist|
        invariant buf[..i] == dirlist[..i]
      {
        buf[i] := dirlist[i];
      }
      assert buf[..|dirlist|] == dirlist;
      ArgzStringify(buf, |dirlist|, dirlist);
      cp := |dirlist|;
      buf[cp - 1] := '/';
      SlashedIsDirText(dirlist);
    }
  }

  /** `stpcpy`. */
  method Stpcpy(buf: array<char>, cp: nat, s: string) returns (next: nat)
    requires cp + |s| < buf.Length
    modifies buf
    ensures next == cp + |s| && buf[..next] == old(buf[..cp]) + s && buf[next] == '\0'
  {
    ghost var base := buf[..cp];
    for i := 0 to |s|
      invariant buf[..cp] == base && buf[cp..cp + i] == s[..i]
    {
      buf[cp + i] := s[i];
    }
    next := cp + |s|;
    buf[next] := '\0';
    assert buf[..next] == buf[..cp] + buf[cp..next];
  }

  /** A part of the name with its leading character, if the mask has it. */
  method PutPart(buf: array<char>, cp: nat, b: bool, lead: char, s: string) returns (next: nat)
    requires cp + |Opt(b, [lead] + s)| < buf.Length
    modifies buf
    ensures next == cp + |Opt(b, [lead] + s)| && buf[..next] == old(buf[..cp]) + Opt(b, [lead] + s)
  {
    next := cp;
    if b {
      buf[cp] := lead;
      next := Stpcpy(buf, cp + 1, s);
    }
  }

  method PutPlain(buf: array<char>, cp: nat, b: bool, s: string) returns (next: nat)
    requires cp + |Opt(b, s)| < buf.Length
    modifies buf
    ensures next == cp + |Opt(b, s)| && buf[..next] == old(buf[..cp]) + Opt(b, s)
  {
    next := cp;
    if b {
      next := Stpcpy(buf, cp, s);
    }
  }

  method PutSponsor(buf: array<char>, cp: nat, mask: nat, p: Parts) returns (next: nat)
    requires cp + |SponsorText(mask, p)| < buf.Length
    modifies buf
    ensures next == cp + |SponsorText(mask, p)| && buf[..next] == old(buf[..cp]) + SponsorText(mask, p)
  {
    hide Has, Opt, SponsorText;
    next := cp;
    SponsorCases(mask, p);
    if Has(mask, CEN_SPONSOR) || Has(mask, CEN_REVISION) {
      ghost var base := buf[..cp];
      buf[cp] := ',';
      assert buf[..cp + 1] == base + ",";
      next := PutPlain(buf, cp + 1, Has(mask, CEN_SPONSOR), p.sponsor);
      next := PutPart(buf, next, Has(mask, CEN_REVISION), '_', p.revision);
      Regroup(base, ",", Opt(Has(mask, CEN_SPONSOR), p.sponsor), Opt(Has(mask, CEN_REVISION), "_" + p.revision));
    }
  }

  lemma SponsorCases(mask: nat, p: Parts)
    ensures SponsorText(mask, p) ==
            if Has(mask, CEN_SPONSOR) || Has(mask, CEN_REVISION)
            then "," + Opt(Has(mask, CEN_SPONSOR), p.sponsor) + Opt(Has(mask, CEN_REVISION), "_" + p.revision) else ""
  {
  }

  lemma Regroup(a: string, b: string, c: string, d: string)
    ensures a + (b + c + d) == a + b + c + d
  {
  }

  /** The parts from the modifier on, and the file name behind them. */
  method PutEnd(buf: array<char>, cp: nat, mask: nat, p: Parts, filename: string) returns (next: nat)
    requires cp + |ModifierText(mask, p)| + |SpecialText(mask, p)| + |SponsorText(mask, p)| + 1 + |filename|
             < buf.Length
    modifies buf
    ensures next == cp + |ModifierText(mask, p)| + |SpecialText(mask, p)| + |SponsorText(mask, p)| + 1 + |filename|
    ensures buf[..next] == old(buf[..cp]) + ModifierText(mask, p) + SpecialText(mask, p) + SponsorText(mask, p)
                           + "/" + filename
    ensures buf[next] == '\0'
  {
    hide Has, Opt, SponsorText;
    next := PutPart(buf, cp, Has(mask, XPG_MODIFIER) || Has(mask, CEN_AUDIENCE),
                    if Has(mask, CEN_AUDIENCE) then '+' else '@', p.modifier);
    next := PutPart(buf, next, Has(mask, CEN_SPECIAL), '+', p.special);
    next := PutSponsor(buf, next, mask, p);
    buf[next] := '/';
    next := Stpcpy(buf, next + 1, filename);
  }

  /** The file name is built in a buffer that it fills exactly. */
  method BuildName(dirlist: string, mask: nat, p: Parts, filename: string) returns (abs_filename: array<char>)
    requires ArgzOk(dirlist)
    ensures fresh(abs_filename) && abs_filename.Length == NameSize(dirlist, mask, p, filename)
    ensures abs_filename[..] == FileName(Entries(dirlist), mask, p, filename) + ['\0']
  {
    hide Has, ArgzOk, Entries, DirText, Opt, ModifierText, SpecialText, SponsorText, NameSize;
    NameSizeExact(dirlist, mask, p, filename);
    abs_filename := new char[NameSize(dirlist, mask, p, filename)];
    var cp := CopyDirs(abs_filename, dirlist);
    cp := Stpcpy(abs_filename, cp, p.language);
    cp := PutPart(abs_filename, cp, Has(mask, TERRITORY), '_', p.territory);
    cp := PutPart(abs_filename, cp, Has(mask, XPG_CODESET), '.', p.codeset);
    cp := PutPart(abs_filename, cp, Has(mask, XPG_NORM_CODESET), '.', p.normalized_codeset);
    cp := PutEnd(abs_filename, cp, mask, p, filename);
    assert abs_filename[..] == abs_filename[..cp] + [abs_filename[cp]];
  }

  // ----- What a file inherits from -----

  /** The masks that are tried below `mask`: no mixture of the two syntaxes and only one codeset. */
  predicate Admissible(cnt: nat, mask: nat) {
    && Submask(cnt, mask)
    && (!Has(cnt, CEN_SPECIFIC) || !Has(cnt, XPG_SPECIFIC))
    && (!Has(cnt, XPG_CODESET) || !Has(cnt, XPG_NORM_CODESET))
  }

  /** The names for one mask: one for each of several directories. */
  function NamesAt(dirs: seq<string>, cnt: nat, p: Parts, filename: string): seq<string> {
    if |dirs| > 1 then seq(|dirs|, i requires 0 <= i < |dirs| => FileName([dirs[i]], cnt, p, filename))
    else [FileName(dirs, cnt, p, filename)]
  }

  /** The names for the admissible masks from `cnt` down to 0. */
  function NamesFrom(dirs: seq<string>, cnt: int, mask: nat, p: Parts, filename: string): seq<string>
    decreases cnt + 1
  {
    if cnt < 0 then []
    else (if Admissible(cnt, mask) then NamesAt(dirs, cnt, p, filename) else [])
         + NamesFrom(dirs, cnt - 1, mask, p, filename)
  }

  /** A single directory leaves out the mask itself. */
  function FirstMask(dirs: seq<string>, mask: nat): int { if |dirs| > 1 then mask else mask - 1 }

  function Successors(dirs: seq<string>, mask: nat, p: Parts, filename: string): seq<string> {
    NamesFrom(dirs, FirstMask(dirs, mask), mask, p, filename)
  }

  function DirCount(dirs: seq<string>): nat { if dirs == [] then 1 else |dirs| }

  /** The length of the successor array that is allocated. */
  function Capacity(dirs: seq<string>, mask: nat): nat {
    hide Pop, Power2;
    1 + DirCount(dirs) * Power2(Pop(mask)) + if DirCount(dirs) > 1 then 1 else 0
  }

  lemma {:induction false} NamesBound(dirs: seq<string>, cnt: int, mask: nat, p: Parts, filename: string)
    requires cnt >= -1
    ensures |NamesFrom(dirs, cnt, mask, p, filename)| <= DirCount(dirs) * SubmasksBelow(cnt + 1, mask)
    decreases cnt + 1
  {
    hide FileName, Has;
    if cnt >= 0 {
      NamesBound(dirs, cnt - 1, mask, p, filename);
      BelowStep(cnt, mask);
      Distribute(DirCount(dirs), SubmasksBelow(cnt, mask), One(Submask(cnt, mask)));
    }
  }

  lemma Distribute(a: nat, b: nat, c: nat)
    ensures a * (b + c) == a * b + a * c
  {
  }

  /** The successors and the null pointer behind them fit in the array. */
  lemma SuccessorsFit(dirs: seq<string>, mask: nat, p: Parts, filename: string)
    requires mask < 0x10000
    ensures |Successors(dirs, mask, p, filename)| < Capacity(dirs, mask)
    ensures |dirs| <= 1 ==> |Successors(dirs, mask, p, filename)| + 1 < Capacity(dirs, mask)
  {
    hide NamesFrom, Pop, BitCount, Power2, SubmasksBelow, Submask;
    PopCounts(mask);
    SubmaskCount(mask);
    NamesBound(dirs, FirstMask(dirs, mask), mask, p, filename);
    if |dirs| <= 1 {
      BelowStep(mask, mask);
      SubmaskOfItself(mask);
    }
  }

  // ----- The lookup -----

  /** The successors of `r` are the files with these names, and a null pointer ends them. */
  predicate Inherits(r: L10nFile, names: seq<string>)
    reads r.successor
  {
    && |names| < r.successor.Length
    && (forall k :: 0 <= k < |names| ==> r.successor[k] != null && r.successor[k].filename == names[k])
    && r.successor[|names|] == null
  }

  ghost function FileSet(files: seq<L10nFile>): set<L10nFile> { set x | x in files }

  /** Puts a new file at place `k`. */
  method Insert(pool: Pool, k: nat, r: L10nFile)
    requires Decreasing(pool.files) && k <= |pool.files|
    requires forall i :: 0 <= i < k ==> StrCmp(pool.files[i].filename, r.filename) > 0
    requires forall i :: k <= i < |pool.files| ==> StrCmp(pool.files[i].filename, r.filename) < 0
    modifies pool
    ensures Decreasing(pool.files) && FileSet(pool.files) == old(FileSet(pool.files)) + {r}
  {
    InsertKeeps(pool.files, k, r);
    ghost var files := pool.files;
    pool.files := pool.files[..k] + [r] + pool.files[k..];
    assert files == files[..k] + files[k..];
  }

  /** The first successors have these names and are among `files`. */
  ghost predicate Filled(successor: array<L10nFile?>, names: seq<string>, files: set<L10nFile>)
    reads successor
  {
    |names| <= successor.Length
    && forall k :: 0 <= k < |names| ==>
         successor[k] != null && successor[k].filename == names[k] && successor[k] in files
  }

  /** A file with its whole successor list, for some directories and some mask. */
  ghost predicate WholeFor(x: L10nFile, files: set<L10nFile>, dirs: seq<string>, mask: nat, p: Parts, filename: string)
    reads x.successor
  {
    var names := Successors(dirs, mask, p, filename);
    && x.filename == FileName(dirs, mask, p, filename) && x.successor.Length == Capacity(dirs, mask)
    && Inherits(x, names) && Filled(x.successor, names, files)
  }

  ghost predicate Whole(x: L10nFile, files: set<L10nFile>, p: Parts, filename: string)
    reads x.successor
  {
    exists dirs: seq<string>, mask: nat :: mask < 0x10000 && WholeFor(x, files, dirs, mask, p, filename)
  }

  ghost function Arrays(xs: set<L10nFile>): set<array<L10nFile?>> { set x | x in xs :: x.successor }

  ghost predicate AllWhole(xs: set<L10nFile>, files: set<L10nFile>, p: Parts, filename: string)
    reads Arrays(xs)
  {
    forall x :: x in xs ==> Whole(x, files, p, filename)
  }

  lemma WholeGrows(x: L10nFile, files: set<L10nFile>, more: set<L10nFile>, p: Parts, filename: string)
    requires Whole(x, files, p, filename) && files <= more
    ensures Whole(x, more, p, filename)
  {
    hide Successors, FileName, Capacity, Inherits;
    var dirs: seq<string>, mask: nat :| mask < 0x10000 && WholeFor(x, files, dirs, mask, p, filename);
    assert WholeFor(x, more, dirs, mask, p, filename);
  }

  /** The files that were added first and those that were added later. */
  lemma WholeJoin(start: set<L10nFile>, files: set<L10nFile>, more: set<L10nFile>, p: Parts, filename: string)
    requires start <= files <= more
    requires AllWhole(files - start, files, p, filename) && AllWhole(more - files, more, p, filename)
    ensures AllWhole(more - start, more, p, filename)
    ensures Arrays(more - start) == Arrays(files - start) + Arrays(more - files)
  {
    hide Whole;
    forall x | x in more - start
      ensures Whole(x, more, p, filename)
    {
      if x in files {
        assert x in files - start;
        WholeGrows(x, files, more, p, filename);
      } else {
        assert x in more - files;
      }
    }
  }

  /** The file that was added, and the files that it inherits from. */
  lemma WholeFirst(start: set<L10nFile>, r: L10nFile, files: set<L10nFile>, dirs: seq<string>, mask: nat, p: Parts,
                   filename: string)
    requires WholeFor(r, files, dirs, mask, p, filename) && mask < 0x10000
    requires AllWhole(files - (start + {r}), files, p, filename)
    ensures AllWhole(files - start, files, p, filename)
    ensures Arrays(files - start) <= Arrays(files - (start + {r})) + {r.successor}
  {
    hide WholeFor;
  }

  lemma WholeIs(r: L10nFile, files: set<L10nFile>, dirs: seq<string>, mask: nat, p: Parts, filename: string)
    requires r.filename == FileName(dirs, mask, p, filename) && r.successor.Length == Capacity(dirs, mask)
    requires var names := Successors(dirs, mask, p, filename);
             |names| < r.successor.Length && Filled(r.successor, names, files) && r.successor[|names|] == null
    ensures WholeFor(r, files, dirs, mask, p, filename) && Inherits(r, Successors(dirs, mask, p, filename))
  {
    hide Successors, FileName, Capacity;
    FilledInherits(r, Successors(dirs, mask, p, filename), files);
  }

  lemma NoneAdded(files: set<L10nFile>, p: Parts, filename: string)
    ensures AllWhole(files - files, files, p, filename) && Arrays(files - files) == {}
  {
  }

  lemma OneDirectory(dir: string)
    requires '\0' !in dir
    ensures ArgzOk(dir + ['\0']) && Entries(dir + ['\0']) == [dir]
  {
    CStringUnique(dir + ['\0'], dir);
  }

  lemma NamedOrNot(files: seq<L10nFile>, name: string, k: nat)
    requires k < |files| && files[k].filename == name
    ensures Named(files, name) && files[k] in FileSet(files)
  {
  }

  /** One more successor. */
  method PutSuccessor(successor: array<L10nFile?>, entries: nat, r: L10nFile, ghost files: set<L10nFile>,
             ghost before: set<L10nFile>, ghost done: seq<string>)
    requires entries == |done| < successor.Length && Filled(successor, done, before) && before <= files && r in files
    modifies successor
    ensures Filled(successor, done + [r.filename], files)
  {
    successor[entries] := r;
  }

  /** The lookup of one successor. */
  method AddSuccessor(pool: Pool, successor: array<L10nFile?>, entries: nat, dirlist: string, cnt: nat, p: Parts,
                      filename: string, ghost several: bool, ghost mask: nat, ghost done: seq<string>)
    requires entries == |done| < successor.Length && ArgzOk(dirlist) && cnt < 0x10000 && Decreasing(pool.files)
    requires Filled(successor, done, FileSet(pool.files))
    requires |Entries(Directories(dirlist, p.language))| <= 1 && cnt <= mask && (!several ==> cnt < mask)
    modifies pool, successor
    ensures Decreasing(pool.files)
    ensures old(FileSet(pool.files)) <= FileSet(pool.files) && fresh(FileSet(pool.files) - old(FileSet(pool.files)))
    ensures AllWhole(FileSet(pool.files) - old(FileSet(pool.files)), FileSet(pool.files), p, filename)
    ensures fresh(Arrays(FileSet(pool.files) - old(FileSet(pool.files))))
    ensures Filled(successor, done + [FileName(Entries(Directories(dirlist, p.language)), cnt, p, filename)],
                   FileSet(pool.files))
    decreases if several then 1 else 0, mask, 0
  {
    hide Entries, FileName, ArgzOk, Decreasing, Filled, Inherits, Named, Capacity, Successors, Has, Directories, Whole;
    ghost var files := FileSet(pool.files);
    var r := MakeL10nFList(pool, dirlist, cnt, p, filename, true);
    PutSuccessor(successor, entries, r, FileSet(pool.files), files, done);
  }

  /** The successors for the mask `cnt`: one, or one for each directory. */
  method AddSuccessors(pool: Pool, successor: array<L10nFile?>, entries: nat, used: string, several: bool, cnt: nat,
                       p: Parts, filename: string, ghost mask: nat, ghost done: seq<string>) returns (entries1: nat)
    requires entries == |done| && ArgzOk(used) && cnt < 0x10000 && Decreasing(pool.files)
    requires Filled(successor, done, FileSet(pool.files))
    requires used == Directories(used, p.language) && (several <==> |Entries(used)| > 1)
    requires cnt <= mask && (!several ==> cnt < mask)
    requires |done| + |NamesAt(Entries(used), cnt, p, filename)| <= successor.Length
    modifies pool, successor
    ensures Decreasing(pool.files)
    ensures old(FileSet(pool.files)) <= FileSet(pool.files) && fresh(FileSet(pool.files) - old(FileSet(pool.files)))
    ensures AllWhole(FileSet(pool.files) - old(FileSet(pool.files)), FileSet(pool.files), p, filename)
    ensures fresh(Arrays(FileSet(pool.files) - old(FileSet(pool.files))))
    ensures entries1 == |done + NamesAt(Entries(used), cnt, p, filename)|
    ensures Filled(successor, done + NamesAt(Entries(used), cnt, p, filename), FileSet(pool.files))
    decreases if several then 1 else 0, mask, 1
  {
    hide Entries, FileName, ArgzOk, Decreasing, CString, Filled, AllWhole;
    ghost var dirs, names := Entries(used), NamesAt(Entries(used), cnt, p, filename);
    ghost var start := FileSet(pool.files);
    NoneAdded(start, p, filename);
    entries1 := entries;
    if several {
      var dir := 0;
      ghost var i := 0;
      assert used[0..] == used && dirs[0..] == dirs && done + names[..0] == done;
      while dir < |used|
        invariant dir <= |used| && ArgzOk(used[dir..]) && i <= |dirs| && Entries(used[dir..]) == dirs[i..]
        invariant entries1 == |done| + i && Filled(successor, done + names[..i], FileSet(pool.files))
        invariant Decreasing(pool.files)
        invariant old(FileSet(pool.files)) <= FileSet(pool.files)
        invariant fresh(FileSet(pool.files) - old(FileSet(pool.files)))
        invariant AllWhole(FileSet(pool.files) - start, FileSet(pool.files), p, filename)
        invariant fresh(Arrays(FileSet(pool.files) - start))
      {
        ArgzStep(used, dir);
        var d := CString(used[dir..]);
        NoEntries(used[dir..]);
        assert d == dirs[i];
        OneDirectory(d);
        ghost var files := FileSet(pool.files);
        assert successor !in Arrays(files - start);
        AddSuccessor(pool, successor, entries1, d + ['\0'], cnt, p, filename, several, mask, done + names[..i]);
        WholeJoin(start, files, FileSet(pool.files), p, filename);
        assert done + names[..i] + [names[i]] == done + names[..i + 1];
        entries1 := entries1 + 1;
        dir := dir + |d| + 1;
        i := i + 1;
      }
      NoEntries(used[dir..]);
      assert names[..i] == names;
    } else {
      AddSuccessor(pool, successor, entries1, used, cnt, p, filename, several, mask, done);
      entries1 := entries1 + 1;
    }
  }

  lemma NamesStep(dirs: seq<string>, cnt: nat, mask: nat, p: Parts, filename: string, done: seq<string>)
    ensures done + NamesFrom(dirs, cnt, mask, p, filename) ==
            if Admissible(cnt, mask)
            then (done + NamesAt(dirs, cnt, p, filename)) + NamesFrom(dirs, cnt - 1, mask, p, filename)
            else done + NamesFrom(dirs, cnt - 1, mask, p, filename)
  {
    hide Admissible, NamesAt;
  }

  /** The successors of a new file, down from the largest mask, and the null pointer behind them. */
  method FillSuccessors(pool: Pool, successor: array<L10nFile?>, used: string, count: nat, mask: nat, p: Parts,
                        filename: string)
    requires ArgzOk(used) && mask < 0x10000 && Decreasing(pool.files) && used == Directories(used, p.language)
    requires count == DirCount(Entries(used)) && successor.Length == Capacity(Entries(used), mask)
    modifies pool, successor
    ensures Decreasing(pool.files)
    ensures old(FileSet(pool.files)) <= FileSet(pool.files) && fresh(FileSet(pool.files) - old(FileSet(pool.files)))
    ensures AllWhole(FileSet(pool.files) - old(FileSet(pool.files)), FileSet(pool.files), p, filename)
    ensures fresh(Arrays(FileSet(pool.files) - old(FileSet(pool.files))))
    ensures var names := Successors(Entries(used), mask, p, filename);
            |names| < successor.Length && Filled(successor, names, FileSet(pool.files)) && successor[|names|] == null
    decreases if |Entries(used)| > 1 then 1 else 0, mask, 2
  {
    hide ArgzOk, Entries, Capacity, Decreasing, Directories, Admissible, NamesAt, NamesFrom, Filled, AllWhole;
    ghost var dirs := Entries(used);
    ghost var start := FileSet(pool.files);
    NoneAdded(start, p, filename);
    NothingFilled(successor, FileSet(pool.files));
    ghost var all, done: seq<string> := Successors(dirs, mask, p, filename), [];
    SuccessorsFit(dirs, mask, p, filename);
    var entries := 0;
    var cnt: int := if count > 1 then mask else mask - 1;
    while cnt >= 0
      invariant -1 <= cnt <= mask && (count <= 1 ==> cnt < mask)
      invariant entries == |done| && all == done + NamesFrom(dirs, cnt, mask, p, filename)
      invariant Filled(successor, done, FileSet(pool.files))
      invariant Decreasing(pool.files)
      invariant old(FileSet(pool.files)) <= FileSet(pool.files)
      invariant fresh(FileSet(pool.files) - old(FileSet(pool.files)))
      invariant AllWhole(FileSet(pool.files) - start, FileSet(pool.files), p, filename)
      invariant fresh(Arrays(FileSet(pool.files) - start))
    {
      NamesStep(dirs, cnt, mask, p, filename, done);
      if Admissible(cnt, mask) {
        ghost var files := FileSet(pool.files);
        assert successor !in Arrays(files - start);
        entries := AddSuccessors(pool, successor, entries, used, count > 1, cnt, p, filename, mask, done);
        WholeJoin(start, files, FileSet(pool.files), p, filename);
        done := done + NamesAt(dirs, cnt, p, filename);
      }
      cnt := cnt - 1;
    }
    NoNames(dirs, mask, p, filename);
    assert done == all;
    assert successor !in Arrays(FileSet(pool.files) - start);
    EndSuccessors(successor, entries, FileSet(pool.files), done);
  }

  lemma NothingFilled(successor: array<L10nFile?>, files: set<L10nFile>)
    ensures Filled(successor, [], files)
  {
  }

  /** The null pointer behind the successors. */
  method EndSuccessors(successor: array<L10nFile?>, entries: nat, ghost files: set<L10nFile>, ghost done: seq<string>)
    requires entries == |done| < successor.Length && Filled(successor, done, files)
    modifies successor
    ensures Filled(successor, done, files) && successor[|done|] == null
  {
    successor[entries] := null;
  }

  lemma NoNames(dirs: seq<string>, mask: nat, p: Parts, filename: string)
    ensures NamesFrom(dirs, -1, mask, p, filename) == []
  {
  }

  /** A new file with room for its successors, put into the pool at place `k`. */
  method NewFile(pool: Pool, k: nat, name: string, used: string, mask: nat) returns (r: L10nFile, count: nat)
    requires ArgzOk(used) && Decreasing(pool.files) && k <= |pool.files|
    requires forall i :: 0 <= i < k ==> StrCmp(pool.files[i].filename, name) > 0
    requires forall i :: k <= i < |pool.files| ==> StrCmp(pool.files[i].filename, name) < 0
    modifies pool
    ensures fresh(r) && fresh(r.successor) && r.filename == name
    ensures count == DirCount(Entries(used)) && r.successor.Length == Capacity(Entries(used), mask)
    ensures r.decided <==> |Entries(used)| > 1 || (Has(mask, XPG_CODESET) && Has(mask, XPG_NORM_CODESET))
    ensures Decreasing(pool.files) && FileSet(pool.files) == old(FileSet(pool.files)) + {r}
  {
    hide ArgzOk, Entries, Has, Capacity, Decreasing, Allocated;
    count := 1;
    if |used| > 0 { count := ArgzCount(used); }
    NoEntries(used);
    r := new L10nFile(name, count > 1 || (Has(mask, XPG_CODESET) && Has(mask, XPG_NORM_CODESET)),
                      Allocated(count, mask));
    CapacityIs(Entries(used), mask);
    Insert(pool, k, r);
  }

  /** A new file at place `k`, with all the files it inherits from. */
  method AddFile(pool: Pool, k: nat, name: string, used: string, mask: nat, p: Parts, filename: string)
    returns (r: L10nFile)
    requires ArgzOk(used) && mask < 0x10000 && Decreasing(pool.files) && used == Directories(used, p.language)
    requires name == FileName(Entries(used), mask, p, filename) && k <= |pool.files|
    requires forall i :: 0 <= i < k ==> StrCmp(pool.files[i].filename, name) > 0
    requires forall i :: k <= i < |pool.files| ==> StrCmp(pool.files[i].filename, name) < 0
    modifies pool
    ensures Decreasing(pool.files)
    ensures old(FileSet(pool.files)) <= FileSet(pool.files) && fresh(FileSet(pool.files) - old(FileSet(pool.files)))
    ensures AllWhole(FileSet(pool.files) - old(FileSet(pool.files)), FileSet(pool.files), p, filename)
    ensures fresh(Arrays(FileSet(pool.files) - old(FileSet(pool.files))))
    ensures r in FileSet(pool.files) && fresh(r) && fresh(r.successor)
    ensures WholeFor(r, FileSet(pool.files), Entries(used), mask, p, filename)
    ensures r.decided <==> |Entries(used)| > 1 || (Has(mask, XPG_CODESET) && Has(mask, XPG_NORM_CODESET))
    decreases if |Entries(used)| > 1 then 1 else 0, mask, 3
  {
    hide ArgzOk, Entries, FileName, Has, Capacity, Decreasing, Directories, Successors, Filled, WholeFor, AllWhole,
      Arrays;
    ghost var start := FileSet(pool.files);
    var count;
    r, count := NewFile(pool, k, name, used, mask);
    FillSuccessors(pool, r.successor, used, count, mask, p, filename);
    WholeIs(r, FileSet(pool.files), Entries(used), mask, p, filename);
    WholeFirst(start, r, FileSet(pool.files), Entries(used), mask, p, filename);
  }

  /** Looks up the file for `mask` and, if it may be allocated, puts a new one into the pool, with all the files it
      inherits from. */
  method MakeL10nFList(pool: Pool, dirlist: string, mask: nat, p: Parts, filename: string, allocate: bool)
    returns (retval: L10nFile?)
    requires ArgzOk(dirlist) && mask < 0x10000 && Decreasing(pool.files)
    modifies pool
    ensures Decreasing(pool.files)
    ensures old(FileSet(pool.files)) <= FileSet(pool.files) && fresh(FileSet(pool.files) - old(FileSet(pool.files)))
    ensures AllWhole(FileSet(pool.files) - old(FileSet(pool.files)), FileSet(pool.files), p, filename)
    ensures fresh(Arrays(FileSet(pool.files) - old(FileSet(pool.files))))
    ensures var name := FileName(Entries(Directories(dirlist, p.language)), mask, p, filename);
            && (Named(old(pool.files), name) || !allocate ==> pool.files == old(pool.files))
            && (retval == null <==> !allocate && !Named(old(pool.files), name))
            && (retval != null ==> retval in FileSet(pool.files) && retval.filename == name)
    ensures var dirs := Entries(Directories(dirlist, p.language));
            allocate && !Named(old(pool.files), FileName(dirs, mask, p, filename)) ==>
              && fresh(retval) && fresh(retval.successor)
              && WholeFor(retval, FileSet(pool.files), dirs, mask, p, filename)
              && (retval.decided <==> |dirs| > 1 || (Has(mask, XPG_CODESET) && Has(mask, XPG_NORM_CODESET)))
    decreases if |Entries(Directories(dirlist, p.language))| > 1 then 1 else 0, mask, 4
  {
    var used := Directories(dirlist, p.language);
    assert ArgzOk(used) && used == Directories(used, p.language);
    hide ArgzOk, Entries, FileName, Has, Capacity, Named, Decreasing, Directories, Successors, Filled, Inherits,
      Allocated, NameSize, WholeFor, AllWhole, Arrays;
    NoneAdded(FileSet(pool.files), p, filename);
    ghost var dirs := Entries(used);
    var abs_filename := BuildName(used, mask, p, filename);
    var name := abs_filename[..abs_filename.Length - 1];
    assert name == FileName(dirs, mask, p, filename);
    var found, k := Find(pool.files, name);
    if found {
      NamedOrNot(pool.files, name, k);
      return pool.files[k];
    }
    if !allocate {
      return null;
    }
    retval := AddFile(pool, k, name, used, mask, p, filename);
  }

  lemma FilledInherits(r: L10nFile, names: seq<string>, files: set<L10nFile>)
    requires |names| < r.successor.Length && Filled(r.successor, names, files) && r.successor[|names|] == null
    ensures Inherits(r, names)
  {
  }

  /** The number of pointers that is allocated. */
  function Allocated(count: nat, mask: nat): nat {
    hide Pop, Power2;
    1 + count * Power2(Pop(mask)) + if count > 1 then 1 else 0
  }

  lemma CapacityIs(dirs: seq<string>, mask: nat)
    ensures Allocated(DirCount(dirs), mask) == Capacity(dirs, mask)
  {
    hide Pop, Power2;
  }
}
