/** What the names of locale files consist of, and which files a locale file inherits from, bit by bit. */
module LocaleNames {
  import opened Arith
  import opened LocaleMask
  import opened L10nFList

  // ----- Bits -----

  predicate Bit(x: nat, i: nat) { x / Power2(i) % 2 == 1 }

  lemma BitHalf(x: nat, i: nat)
    ensures Bit(x, i + 1) <==> Bit(x / 2, i)
  {
    DivideTwice(x, Power2(i));
  }

  lemma DivideTwice(x: nat, d: nat)
    requires d > 0
    ensures x / (2 * d) == x / 2 / d
  {
    var q, r := x / 2 / d, x / 2 % d;
    assert x / 2 == q * d + r;
    assert x == q * (2 * d) + (2 * r + x % 2);
    DivUnique(x, q, 2 * r + x % 2, 2 * d);
  }

  lemma DivUnique(x: nat, q: nat, r: nat, m: nat)
    requires 0 <= r < m && x == q * m + r
    ensures x / m == q
  {
    ModUnique(x, q, r, m);
    assert x == (x / m) * m + x % m;
    SameFactor(x / m, q, m);
  }

  lemma SameFactor(a: int, b: int, m: nat)
    requires m > 0 && a * m == b * m
    ensures a == b
  {
    assert (a - b) * m == 0;
  }

  /** A mask is below another one in the order of sets exactly when it has no other bits. */
  ghost predicate Dominated(c: nat, mask: nat) { forall i: nat :: Bit(c, i) ==> Bit(mask, i) }

  lemma ZeroBit(i: nat)
    ensures !Bit(0, i)
  {
    DivUnique(0, 0, 0, Power2(i));
  }

  lemma BitZero(x: nat)
    ensures Bit(x, 0) <==> x % 2 == 1
    ensures x == 0 ==> forall i: nat :: !Bit(x, i)
  {
    forall i: nat | x == 0 ensures !Bit(x, i) { ZeroBit(i); }
  }

  lemma DominatedHalf(c: nat, mask: nat)
    ensures Dominated(c, mask) <==> (c % 2 == 1 ==> mask % 2 == 1) && Dominated(c / 2, mask / 2)
  {
    hide Bit;
    BitZero(c);
    BitZero(mask);
    if Dominated(c, mask) {
      forall i: nat | Bit(c / 2, i) ensures Bit(mask / 2, i) {
        BitHalf(c, i);
        BitHalf(mask, i);
        assert Bit(c, i + 1);
      }
    }
    if (c % 2 == 1 ==> mask % 2 == 1) && Dominated(c / 2, mask / 2) {
      forall i: nat | Bit(c, i) ensures Bit(mask, i) {
        if i > 0 {
          BitHalf(c, i - 1);
          BitHalf(mask, i - 1);
        }
      }
    }
  }

  lemma SubmaskHalf(c: nat, mask: nat)
    ensures Submask(c, mask) <==> (c % 2 == 1 ==> mask % 2 == 1) && Submask(c / 2, mask / 2)
  {
    hide Submask;
    SubmaskStep(c / 2, mask);
    assert c == 2 * (c / 2) + c % 2;
  }

  lemma {:induction false} SubmaskDominated(c: nat, mask: nat)
    ensures Submask(c, mask) <==> Dominated(c, mask)
  {
    hide Submask, Dominated, Bit;
    SubmaskHalf(c, mask);
    DominatedHalf(c, mask);
    if c > 0 {
      SubmaskDominated(c / 2, mask / 2);
    } else {
      NothingDominated(mask);
    }
  }

  lemma NothingDominated(mask: nat)
    ensures Submask(0, mask) && Dominated(0, mask)
  {
    BitZero(0);
  }

  lemma NibbleBits(x: nat)
    ensures x == Push4(x / 16, x / 8 % 2, x / 4 % 2, x / 2 % 2, x % 2)
  {
    var y := x / 2;
    var z := y / 2;
    var u := z / 2;
    assert z == x / 4 && u == x / 8 && u / 2 == x / 16;
  }

  lemma AndLow(x: nat, h: nat, b7: nat, b6: nat, b5: nat, b4: nat, b3: nat, b2: nat, b1: nat, b0: nat,
               f7: nat, f6: nat, f5: nat, f4: nat, f3: nat, f2: nat, f1: nat, f0: nat)
    requires b7 < 2 && b6 < 2 && b5 < 2 && b4 < 2 && b3 < 2 && b2 < 2 && b1 < 2 && b0 < 2
    requires f7 < 2 && f6 < 2 && f5 < 2 && f4 < 2 && f3 < 2 && f2 < 2 && f1 < 2 && f0 < 2
    requires x == Push4(Push4(h, b7, b6, b5, b4), b3, b2, b1, b0)
    ensures And(x, Push4(Push4(0, f7, f6, f5, f4), f3, f2, f1, f0)) != 0 <==>
            || (b7 == 1 && f7 == 1) || (b6 == 1 && f6 == 1) || (b5 == 1 && f5 == 1) || (b4 == 1 && f4 == 1)
            || (b3 == 1 && f3 == 1) || (b2 == 1 && f2 == 1) || (b1 == 1 && f1 == 1) || (b0 == 1 && f0 == 1)
  {
    AndNothing(h);
    AndPush4(h, 0, b7, b6, b5, b4, f7, f6, f5, f4);
    AndPush4(Push4(h, b7, b6, b5, b4), Push4(0, f7, f6, f5, f4), b3, b2, b1, b0, f3, f2, f1, f0);
    hide And;
  }

  lemma AndNothing(h: nat)
    ensures And(h, 0) == 0
  {
  }

  lemma HighNibble(x: nat)
    ensures x / 16 / 16 == x / 256 && x / 16 / 8 == x / 128 && x / 16 / 4 == x / 64 && x / 16 / 2 == x / 32
  {
  }

  lemma FlagNumber(f7: nat, f6: nat, f5: nat, f4: nat, f3: nat, f2: nat, f1: nat, f0: nat)
    ensures Push4(Push4(0, f7, f6, f5, f4), f3, f2, f1, f0)
            == 128 * f7 + 64 * f6 + 32 * f5 + 16 * f4 + 8 * f3 + 4 * f2 + 2 * f1 + f0
  {
  }

  /** The flags of a mask below 256 are tested bit by bit. */
  lemma FlagsAre(x: nat, f7: nat, f6: nat, f5: nat, f4: nat, f3: nat, f2: nat, f1: nat, f0: nat)
    requires f7 < 2 && f6 < 2 && f5 < 2 && f4 < 2 && f3 < 2 && f2 < 2 && f1 < 2 && f0 < 2
    ensures Has(x, 128 * f7 + 64 * f6 + 32 * f5 + 16 * f4 + 8 * f3 + 4 * f2 + 2 * f1 + f0) <==>
            || (x / 128 % 2 == 1 && f7 == 1) || (x / 64 % 2 == 1 && f6 == 1) || (x / 32 % 2 == 1 && f5 == 1)
            || (x / 16 % 2 == 1 && f4 == 1) || (x / 8 % 2 == 1 && f3 == 1) || (x / 4 % 2 == 1 && f2 == 1)
            || (x / 2 % 2 == 1 && f1 == 1) || (x % 2 == 1 && f0 == 1)
  {
    hide And, Push4;
    NibbleBits(x);
    NibbleBits(x / 16);
    HighNibble(x);
    FlagNumber(f7, f6, f5, f4, f3, f2, f1, f0);
    AndLow(x, x / 256, x / 128 % 2, x / 64 % 2, x / 32 % 2, x / 16 % 2, x / 8 % 2, x / 4 % 2, x / 2 % 2, x % 2,
           f7, f6, f5, f4, f3, f2, f1, f0);
  }

  /** The tests of flags are tests of bits. */
  lemma FlagBits(x: nat)
    ensures Has(x, CEN_REVISION) <==> x % 2 == 1
    ensures Has(x, CEN_SPONSOR) <==> x / 2 % 2 == 1
    ensures Has(x, CEN_SPECIAL) <==> x / 4 % 2 == 1
    ensures Has(x, XPG_NORM_CODESET) <==> x / 8 % 2 == 1
    ensures Has(x, XPG_CODESET) <==> x / 16 % 2 == 1
    ensures Has(x, TERRITORY) <==> x / 32 % 2 == 1
    ensures Has(x, CEN_AUDIENCE) <==> x / 64 % 2 == 1
    ensures Has(x, XPG_MODIFIER) <==> x / 128 % 2 == 1
    ensures Has(x, CEN_SPECIFIC) <==> x % 2 == 1 || x / 2 % 2 == 1 || x / 4 % 2 == 1 || x / 64 % 2 == 1
    ensures Has(x, XPG_SPECIFIC) <==> x / 8 % 2 == 1 || x / 16 % 2 == 1 || x / 128 % 2 == 1
  {
    hide Has;
    FlagsAre(x, 0, 0, 0, 0, 0, 0, 0, 1);
    FlagsAre(x, 0, 0, 0, 0, 0, 0, 1, 0);
    FlagsAre(x, 0, 0, 0, 0, 0, 1, 0, 0);
    FlagsAre(x, 0, 0, 0, 0, 1, 0, 0, 0);
    FlagsAre(x, 0, 0, 0, 1, 0, 0, 0, 0);
    FlagsAre(x, 0, 0, 1, 0, 0, 0, 0, 0);
    FlagsAre(x, 0, 1, 0, 0, 0, 0, 0, 0);
    FlagsAre(x, 1, 0, 0, 0, 0, 0, 0, 0);
    FlagsAre(x, 0, 1, 0, 0, 0, 1, 1, 1);
    FlagsAre(x, 1, 0, 0, 1, 1, 0, 0, 0);
  }

  // ----- Successors -----

  /** Parts of the mask, with the parts of one syntax only and with one codeset at most. */
  ghost predicate Allowed(c: nat, mask: nat) {
    && Dominated(c, mask)
    && !((c % 2 == 1 || c / 2 % 2 == 1 || c / 4 % 2 == 1 || c / 64 % 2 == 1)
         && (c / 8 % 2 == 1 || c / 16 % 2 == 1 || c / 128 % 2 == 1))
    && !(c / 8 % 2 == 1 && c / 16 % 2 == 1)
  }

  lemma AdmissibleIff(c: nat, mask: nat)
    ensures Admissible(c, mask) <==> Allowed(c, mask)
  {
    hide Has, Submask, Dominated;
    FlagBits(c);
    SubmaskDominated(c, mask);
  }

  predicate Descending(ms: seq<nat>) { forall a, b :: 0 <= a < b < |ms| ==> ms[a] > ms[b] }

  /** `ms` are the allowed masks from `first` down. */
  ghost predicate MasksFrom(ms: seq<nat>, first: int, mask: nat) {
    && Descending(ms) && (forall a :: 0 <= a < |ms| ==> ms[a] <= first && Allowed(ms[a], mask))
    && (forall c: nat :: c <= first && Allowed(c, mask) ==> c in ms)
  }

  /** One name for each mask, or for each mask and each of several directories. */
  ghost predicate NamesOf(names: seq<string>, ms: seq<nat>, dirs: seq<string>, p: Parts, filename: string) {
    if |dirs| <= 1 then
      |names| == |ms| && forall a :: 0 <= a < |ms| ==> names[a] == FileName(dirs, ms[a], p, filename)
    else
      && |names| == |ms| * |dirs|
      && forall a: nat, b: nat :: a < |ms| && b < |dirs| ==> NameStands(names, a, b, ms[a], dirs, p, filename)
  }

  /** Row `a` holds in place `b` the name for the mask `c` and directory `b`. */
  ghost predicate NameStands(names: seq<string>, a: nat, b: nat, c: nat, dirs: seq<string>, p: Parts, filename: string)
    requires b < |dirs|
  {
    0 <= a * |dirs| + b < |names| && names[a * |dirs| + b] == FileName([dirs[b]], c, p, filename)
  }

  lemma {:induction false} NamesFromMeaning(dirs: seq<string>, cnt: int, mask: nat, p: Parts, filename: string)
    returns (ms: seq<nat>)
    requires cnt >= -1
    ensures MasksFrom(ms, cnt, mask) && NamesOf(NamesFrom(dirs, cnt, mask, p, filename), ms, dirs, p, filename)
    decreases cnt + 1
  {
    hide Admissible, Allowed, FileName, NamesOf, MasksFrom, NamesAt;
    if cnt < 0 {
      ms := [];
      NoMasks(cnt, mask, dirs, p, filename);
    } else {
      var ms1 := NamesFromMeaning(dirs, cnt - 1, mask, p, filename);
      AdmissibleIff(cnt, mask);
      MasksNext(ms1, cnt, mask);
      if Admissible(cnt, mask) {
        ms := [cnt] + ms1;
        NamesNext(NamesFrom(dirs, cnt - 1, mask, p, filename), ms1, cnt, dirs, p, filename);
      } else {
        ms := ms1;
        assert [] + NamesFrom(dirs, cnt - 1, mask, p, filename) == NamesFrom(dirs, cnt - 1, mask, p, filename);
      }
    }
  }

  lemma NoMasks(cnt: int, mask: nat, dirs: seq<string>, p: Parts, filename: string)
    requires cnt < 0
    ensures MasksFrom([], cnt, mask) && NamesOf([], [], dirs, p, filename)
  {
  }

  lemma MasksNext(ms: seq<nat>, cnt: nat, mask: nat)
    requires MasksFrom(ms, cnt - 1, mask)
    ensures MasksFrom(if Allowed(cnt, mask) then [cnt] + ms else ms, cnt, mask)
  {
    hide Allowed;
  }

  lemma NamesNext(names: seq<string>, ms: seq<nat>, c: nat, dirs: seq<string>, p: Parts, filename: string)
    requires NamesOf(names, ms, dirs, p, filename)
    ensures NamesOf(NamesAt(dirs, c, p, filename) + names, [c] + ms, dirs, p, filename)
  {
    hide FileName, NamesAt, NameStands;
    if |dirs| <= 1 {
      OneNameMore(names, ms, c, dirs, p, filename);
    } else {
      var row := NamesAt(dirs, c, p, filename);
      RowLength(dirs, c, p, filename);
      OneRowMore(|ms|, |dirs|);
      forall a: nat, b: nat | a < |ms| + 1 && b < |dirs|
        ensures NameStands(row + names, a, b, ([c] + ms)[a], dirs, p, filename)
      {
        NameInRow(row, names, ms, c, dirs, p, filename, a, b);
      }
    }
  }

  lemma RowLength(dirs: seq<string>, c: nat, p: Parts, filename: string)
    requires |dirs| > 1
    ensures |NamesAt(dirs, c, p, filename)| == |dirs|
  {
    hide FileName;
  }

  lemma OneNameMore(names: seq<string>, ms: seq<nat>, c: nat, dirs: seq<string>, p: Parts, filename: string)
    requires NamesOf(names, ms, dirs, p, filename) && |dirs| <= 1
    ensures NamesOf(NamesAt(dirs, c, p, filename) + names, [c] + ms, dirs, p, filename)
  {
    hide FileName;
    var all := NamesAt(dirs, c, p, filename) + names;
    forall a | 0 <= a < |ms| + 1 ensures all[a] == FileName(dirs, ([c] + ms)[a], p, filename) {
      if a > 0 { assert names[a - 1] == FileName(dirs, ms[a - 1], p, filename); }
    }
  }

  lemma NameInRow(row: seq<string>, names: seq<string>, ms: seq<nat>, c: nat, dirs: seq<string>, p: Parts,
                  filename: string, a: nat, b: nat)
    requires |dirs| > 1 && NamesOf(names, ms, dirs, p, filename) && row == NamesAt(dirs, c, p, filename)
    requires a < |ms| + 1 && b < |dirs|
    ensures NameStands(row + names, a, b, ([c] + ms)[a], dirs, p, filename)
  {
    hide FileName;
    var n := |dirs|;
    if a > 0 {
      OneRowMore(a - 1, n);
      var k := (a - 1) * n + b;
      assert NameStands(names, a - 1, b, ms[a - 1], dirs, p, filename);
      assert names[k] == FileName([dirs[b]], ms[a - 1], p, filename);
      assert a * n + b == |row| + k;
    }
  }

  lemma OneRowMore(a: nat, n: nat)
    ensures (a + 1) * n == a * n + n
  {
  }

  /** The successors of the file for `mask`: the files for exactly the allowed masks below the mask, or up to it with
      several directories, from the largest down, and for one mask one file for each directory in order. */
  lemma SuccessorsMeaning(dirs: seq<string>, mask: nat, p: Parts, filename: string) returns (ms: seq<nat>)
    ensures MasksFrom(ms, if |dirs| > 1 then mask else mask - 1, mask)
    ensures NamesOf(Successors(dirs, mask, p, filename), ms, dirs, p, filename)
  {
    ms := NamesFromMeaning(dirs, FirstMask(dirs, mask), mask, p, filename);
  }

  /** A name is that of a successor exactly if it is the name for an allowed mask and one of the directories. */
  lemma SuccessorIff(dirs: seq<string>, mask: nat, p: Parts, filename: string, name: string)
    ensures name in Successors(dirs, mask, p, filename) <==>
            exists c: nat :: c <= (if |dirs| > 1 then mask else mask - 1) && Allowed(c, mask)
                             && NameFor(dirs, c, p, filename, name)
  {
    hide Allowed, FileName, Successors;
    var ms := SuccessorsMeaning(dirs, mask, p, filename);
    var names := Successors(dirs, mask, p, filename);
    if name in names {
      var k :| 0 <= k < |names| && names[k] == name;
      var a := NameAt(names, ms, dirs, p, filename, k);
      assert Allowed(ms[a], mask) && NameFor(dirs, ms[a], p, filename, name);
    }
    forall c: nat | c <= (if |dirs| > 1 then mask else mask - 1) && Allowed(c, mask)
                    && NameFor(dirs, c, p, filename, name)
      ensures name in names
    {
      var a :| 0 <= a < |ms| && ms[a] == c;
      NameThere(names, ms, dirs, p, filename, a, name);
    }
  }

  /** `name` is the name for `c` and the directory, or one of several. */
  ghost predicate NameFor(dirs: seq<string>, c: nat, p: Parts, filename: string, name: string) {
    if |dirs| <= 1 then name == FileName(dirs, c, p, filename)
    else exists b :: 0 <= b < |dirs| && name == FileName([dirs[b]], c, p, filename)
  }

  lemma NameAt(names: seq<string>, ms: seq<nat>, dirs: seq<string>, p: Parts, filename: string, k: nat) returns (a: nat)
    requires NamesOf(names, ms, dirs, p, filename) && k < |names|
    ensures a < |ms| && NameFor(dirs, ms[a], p, filename, names[k])
  {
    hide FileName;
    if |dirs| <= 1 {
      a := k;
    } else {
      var b;
      a, b := RowOf(k, |ms|, |dirs|);
      assert NameStands(names, a, b, ms[a], dirs, p, filename);
    }
  }

  lemma RowOf(k: nat, rows: nat, n: nat) returns (a: nat, b: nat)
    requires n > 0 && k < rows * n
    ensures k == a * n + b && a < rows && b < n
  {
    a, b := k / n, k % n;
    assert k == a * n + b;
    if a >= rows { RowsBefore(rows, a, n); }
  }

  lemma RowsBefore(a: nat, b: nat, n: nat)
    requires a <= b
    ensures a * n <= b * n
  {
    assert b * n == a * n + (b - a) * n;
  }

  lemma NameThere(names: seq<string>, ms: seq<nat>, dirs: seq<string>, p: Parts, filename: string, a: nat, name: string)
    requires NamesOf(names, ms, dirs, p, filename) && a < |ms| && NameFor(dirs, ms[a], p, filename, name)
    ensures name in names
  {
    hide FileName;
    if |dirs| <= 1 {
      assert names[a] == name;
    } else {
      var b :| 0 <= b < |dirs| && name == FileName([dirs[b]], ms[a], p, filename);
      assert NameStands(names, a, b, ms[a], dirs, p, filename);
    }
  }

  // ----- Names -----

  /** The parts of a name: the language, and what the bits of the mask select, each behind its separator. */
  lemma NameMeaning(dirs: seq<string>, mask: nat, p: Parts, filename: string)
    ensures FileName(dirs, mask, p, filename) ==
            DirText(dirs) + p.language
            + (if mask / 32 % 2 == 1 then "_" + p.territory else "")
            + (if mask / 16 % 2 == 1 then "." + p.codeset else "")
            + (if mask / 8 % 2 == 1 then "." + p.normalized_codeset else "")
            + (if mask / 64 % 2 == 1 then "+" + p.modifier else if mask / 128 % 2 == 1 then "@" + p.modifier else "")
            + (if mask / 4 % 2 == 1 then "+" + p.special else "")
            + (if mask / 2 % 2 == 1 || mask % 2 == 1
               then "," + (if mask / 2 % 2 == 1 then p.sponsor else "")
                    + (if mask % 2 == 1 then "_" + p.revision else "")
               else "")
            + "/" + filename
  {
    hide Has;
    FlagBits(mask);
  }

  function CountOf(s: string, c: char): nat {
    if s == "" then 0 else CountOf(s[..|s| - 1], c) + if s[|s| - 1] == c then 1 else 0
  }

  lemma {:induction false} CountAppend(a: string, b: string, c: char)
    ensures CountOf(a + b, c) == CountOf(a, c) + CountOf(b, c)
  {
    if b == "" {
      assert a + b == a;
    } else {
      assert (a + b)[..|a + b| - 1] == a + b[..|b| - 1];
      CountAppend(a, b[..|b| - 1], c);
    }
  }

  lemma {:induction false} CountNone(s: string, c: char)
    requires c !in s
    ensures CountOf(s, c) == 0
  {
    if s != "" { CountNone(s[..|s| - 1], c); }
  }

  predicate Separator(c: char) { c == '_' || c == '.' || c == '@' || c == '+' || c == ',' }

  predicate PlainText(s: string) { forall k :: 0 <= k < |s| ==> !Separator(s[k]) }

  /** No part contains a separator. */
  predicate PlainParts(p: Parts) {
    && PlainText(p.language) && PlainText(p.territory) && PlainText(p.codeset) && PlainText(p.normalized_codeset)
    && PlainText(p.modifier) && PlainText(p.special) && PlainText(p.sponsor) && PlainText(p.revision)
  }

  function OneIf(b: bool): nat { if b then 1 else 0 }

  lemma CountPart(b: bool, s: char, part: string, c: char)
    requires PlainText(part) && Separator(c)
    ensures CountOf(Opt(b, [s] + part), c) == OneIf(b && s == c)
  {
    CountAppend([s], part, c);
    CountNone(part, c);
    assert [s][..0] == "" && CountOf("", c) == 0;
    assert CountOf([s], c) == OneIf(s == c);
  }

  lemma CountSponsor(mask: nat, p: Parts, c: char)
    requires PlainParts(p) && Separator(c)
    ensures CountOf(SponsorText(mask, p), c)
            == OneIf((Has(mask, CEN_SPONSOR) || Has(mask, CEN_REVISION)) && c == ',')
               + OneIf(Has(mask, CEN_REVISION) && c == '_')
  {
    hide Has;
    var s, r := Opt(Has(mask, CEN_SPONSOR), p.sponsor), Opt(Has(mask, CEN_REVISION), "_" + p.revision);
    CountPart(true, ',', s, c);
    assert Opt(true, [','] + s) == "," + s;
    CountPart(Has(mask, CEN_REVISION), '_', p.revision, c);
    CountAppend("," + s, r, c);
  }

  /** How often a separator occurs in a name says which parts it has: `_` for a territory and for a revision, `.` for
      each codeset, `@` or `+` for a modifier, `+` for a special part, and `,` for a sponsor or a revision. */
  lemma NameSeparators(dirs: seq<string>, mask: nat, p: Parts, filename: string, c: char)
    requires PlainParts(p) && Separator(c)
    ensures CountOf(FileName(dirs, mask, p, filename), c) == CountOf(DirText(dirs), c) + CountOf(filename, c)
            + (if c == '_' then OneIf(mask / 32 % 2 == 1) + OneIf(mask % 2 == 1)
               else if c == '.' then OneIf(mask / 16 % 2 == 1) + OneIf(mask / 8 % 2 == 1)
               else if c == '@' then OneIf(mask / 128 % 2 == 1 && mask / 64 % 2 != 1)
               else if c == '+' then OneIf(mask / 64 % 2 == 1) + OneIf(mask / 4 % 2 == 1)
               else OneIf(mask / 2 % 2 == 1 || mask % 2 == 1))
  {
    hide Has, CountOf, DirText, PlainParts, FileName;
    FlagBits(mask);
    CountSeparators(dirs, mask, p, filename, c);
  }

  lemma CountSeparators(dirs: seq<string>, mask: nat, p: Parts, filename: string, c: char)
    requires PlainParts(p) && Separator(c)
    ensures CountOf(FileName(dirs, mask, p, filename), c) == CountOf(DirText(dirs), c) + CountOf(filename, c)
            + OneIf(Has(mask, TERRITORY) && c == '_') + OneIf(Has(mask, XPG_CODESET) && c == '.')
            + OneIf(Has(mask, XPG_NORM_CODESET) && c == '.') + OneIf(Has(mask, CEN_AUDIENCE) && c == '+')
            + OneIf(Has(mask, XPG_MODIFIER) && !Has(mask, CEN_AUDIENCE) && c == '@')
            + OneIf(Has(mask, CEN_SPECIAL) && c == '+')
            + OneIf((Has(mask, CEN_SPONSOR) || Has(mask, CEN_REVISION)) && c == ',')
            + OneIf(Has(mask, CEN_REVISION) && c == '_')
  {
    PartCounts(mask, p, c);
    CountModifier(mask, p, c);
    CountSponsor(mask, p, c);
    hide Has, Opt, CountOf, SponsorText, DirText, TerritoryText, CodesetText, NormCodesetText, ModifierText,
      SpecialText, PlainParts, FileName;
    NameParts(dirs, mask, p, filename);
    CountParts(DirText(dirs), p.language, TerritoryText(mask, p), CodesetText(mask, p), NormCodesetText(mask, p),
               ModifierText(mask, p), SpecialText(mask, p), SponsorText(mask, p), filename, c);
  }

  lemma NameParts(dirs: seq<string>, mask: nat, p: Parts, filename: string)
    ensures FileName(dirs, mask, p, filename) ==
            DirText(dirs) + p.language + TerritoryText(mask, p) + CodesetText(mask, p) + NormCodesetText(mask, p)
            + ModifierText(mask, p) + SpecialText(mask, p) + SponsorText(mask, p) + "/" + filename
  {
    hide DirText, TerritoryText, CodesetText, NormCodesetText, ModifierText, SpecialText, SponsorText;
  }

  lemma PartCounts(mask: nat, p: Parts, c: char)
    requires PlainParts(p) && Separator(c)
    ensures CountOf(p.language, c) == 0
    ensures CountOf(TerritoryText(mask, p), c) == OneIf(Has(mask, TERRITORY) && c == '_')
    ensures CountOf(CodesetText(mask, p), c) == OneIf(Has(mask, XPG_CODESET) && c == '.')
    ensures CountOf(NormCodesetText(mask, p), c) == OneIf(Has(mask, XPG_NORM_CODESET) && c == '.')
    ensures CountOf(SpecialText(mask, p), c) == OneIf(Has(mask, CEN_SPECIAL) && c == '+')
  {
    hide Has, Opt, CountOf;
    CountNone(p.language, c);
    CountPart(Has(mask, TERRITORY), '_', p.territory, c);
    CountPart(Has(mask, XPG_CODESET), '.', p.codeset, c);
    CountPart(Has(mask, XPG_NORM_CODESET), '.', p.normalized_codeset, c);
    CountPart(Has(mask, CEN_SPECIAL), '+', p.special, c);
  }

  lemma CountModifier(mask: nat, p: Parts, c: char)
    requires PlainParts(p) && Separator(c)
    ensures CountOf(ModifierText(mask, p), c)
            == OneIf(Has(mask, CEN_AUDIENCE) && c == '+')
               + OneIf(Has(mask, XPG_MODIFIER) && !Has(mask, CEN_AUDIENCE) && c == '@')
  {
    hide Has, Opt, CountOf;
    var m := if Has(mask, CEN_AUDIENCE) then '+' else '@';
    CountPart(Has(mask, XPG_MODIFIER) || Has(mask, CEN_AUDIENCE), m, p.modifier, c);
  }

  lemma CountParts(a: string, b: string, d: string, e: string, f: string, g: string, h: string, i: string, j: string,
                   c: char)
    requires Separator(c)
    ensures CountOf(a + b + d + e + f + g + h + i + "/" + j, c)
            == CountOf(a, c) + CountOf(b, c) + CountOf(d, c) + CountOf(e, c) + CountOf(f, c) + CountOf(g, c)
               + CountOf(h, c) + CountOf(i, c) + CountOf(j, c)
  {
    hide CountOf;
    CountSlash(c);
    CountAppend(a, b, c);
    CountAppend(a + b, d, c);
    CountAppend(a + b + d, e, c);
    CountAppend(a + b + d + e, f, c);
    CountAppend(a + b + d + e + f, g, c);
    CountAppend(a + b + d + e + f + g, h, c);
    CountAppend(a + b + d + e + f + g + h, i, c);
    CountAppend(a + b + d + e + f + g + h + i, "/", c);
    CountAppend(a + b + d + e + f + g + h + i + "/", j, c);
  }

  lemma CountSlash(c: char)
    requires Separator(c)
    ensures CountOf("/", c) == 0
  {
    assert "/"[..0] == "";
  }

  // ----- Directories -----

  /** The strings of a list, each with its null character, are the list. */
  function Joined(dirs: seq<string>): string {
    if dirs == [] then "" else dirs[0] + "\0" + Joined(dirs[1..])
  }

  lemma {:induction false} EntriesJoined(argz: string)
    requires ArgzOk(argz)
    ensures Joined(Entries(argz)) == argz && NoNulls(Entries(argz))
    decreases |argz|
  {
    hide ArgzOk, Joined, Entries, NoNulls;
    if argz == "" {
      NoEntries();
    } else {
      var n := FirstEntry(argz);
      EntriesJoined(argz[n + 1..]);
      EntryMore(argz[..n], Entries(argz[n + 1..]));
    }
  }

  ghost predicate NoNulls(dirs: seq<string>) { forall i :: 0 <= i < |dirs| ==> '\0' !in dirs[i] }

  lemma NoEntries()
    ensures Joined(Entries("")) == "" && NoNulls(Entries(""))
  {
  }

  /** The first string ends at its null character, and the other strings follow. */
  lemma FirstEntry(argz: string) returns (n: nat)
    requires ArgzOk(argz) && argz != ""
    ensures n < |argz| && '\0' !in argz[..n] && ArgzOk(argz[n + 1..])
    ensures argz == argz[..n] + "\0" + argz[n + 1..] && Entries(argz) == [argz[..n]] + Entries(argz[n + 1..])
  {
    hide CStrings.CString;
    n := |CStrings.CString(argz)|;
    var last := argz[|argz| - 1];
    assert n == |argz| ==> last in CStrings.CString(argz);
  }

  lemma EntryMore(dir: string, dirs: seq<string>)
    requires '\0' !in dir && NoNulls(dirs)
    ensures Joined([dir] + dirs) == dir + "\0" + Joined(dirs) && NoNulls([dir] + dirs)
  {
    assert ([dir] + dirs)[1..] == dirs;
  }

  /** Directories are separated by colons, and a slash ends them. */
  lemma {:induction false} DirTextMeaning(dirs: seq<string>, dir: string)
    ensures DirText([]) == "" && DirText([dir]) == dir + "/"
    ensures dirs != [] ==> DirText(dirs) != ""
                           && DirText(dirs + [dir]) == DirText(dirs)[..|DirText(dirs)| - 1] + ":" + dir + "/"
  {
    if |dirs| == 1 {
      assert (dirs + [dir])[1..] == [dir];
      assert (dirs[0] + "/")[..|dirs[0]|] == dirs[0];
      assert dirs[0] + [':'] + (dir + "/") == dirs[0] + ":" + dir + "/";
    } else if |dirs| > 1 {
      var rest, front := DirText(dirs[1..]), dirs[0] + [':'];
      DirTextMeaning(dirs[1..], dir);
      assert (dirs + [dir])[1..] == dirs[1..] + [dir];
      assert (front + rest)[..|front + rest| - 1] == front + rest[..|rest| - 1];
      assert front + (rest[..|rest| - 1] + ":" + dir + "/") == front + rest[..|rest| - 1] + ":" + dir + "/";
    }
  }

  /** With an absolute language the directories do not count; otherwise they all do. */
  lemma DirectoriesMeaning(dirlist: string, language: string)
    ensures language != "" && language[0] == '/' ==> Entries(Directories(dirlist, language)) == []
    ensures !(language != "" && language[0] == '/') ==> Directories(dirlist, language) == dirlist
  {
  }
}
