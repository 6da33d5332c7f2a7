/** What holds of every format that `printf_parse` accepts. */
module PrintfFormat {
  import opened Options
  import opened XSize
  import opened PrintfParse
  import opened PrintfGrammar

  // ----- Size specifiers -----

  function Count(s: string, p: char -> bool): nat {
    if s == "" then 0 else Count(s[..|s| - 1], p) + if p(s[|s| - 1]) then 1 else 0
  }

  function Bit(b: bool, value: nat): nat { if b then value else 0 }

  lemma AddSizeMeaning(one: bool, two: bool, big: bool, longs: nat, c: char)
    requires two ==> one
    ensures AddSize(Bit(one, 1) + Bit(two, 2) + Bit(big, 4) + 8 * longs, c) ==
            if c == 'h' then Bit(true, 1) + Bit(one, 2) + Bit(big, 4) + 8 * longs
            else if c == 'L' then Bit(one, 1) + Bit(two, 2) + Bit(true, 4) + 8 * longs
            else Bit(one, 1) + Bit(two, 2) + Bit(big, 4) + 8 * (longs + 1)
  {
    var low := Bit(one, 1) + Bit(two, 2) + Bit(big, 4);
    hide AddSize;
    LowBits(low, longs);
    BitDigits(one, two, big);
    AddSizeBits(low + 8 * longs, c, one, two, big);
  }

  lemma BitDigits(one: bool, two: bool, big: bool)
    ensures var low := Bit(one, 1) + Bit(two, 2) + Bit(big, 4);
            (low % 2 == 1 <==> one) && (low / 2 % 2 == 1 <==> two) && (low / 4 % 2 == 1 <==> big)
  {
  }

  lemma LowBits(low: nat, longs: nat)
    ensures var n := low + 8 * longs; n % 2 == low % 2 && n / 2 % 2 == low / 2 % 2 && n / 4 % 2 == low / 4 % 2
  {
    Even(low, 4 * longs);
    Halves(low, longs);
    Even(low / 2, 2 * longs);
    Even(low / 4, longs);
  }

  lemma Even(a: nat, k: nat)
    ensures (a + 2 * k) % 2 == a % 2
  {
  }

  lemma Halves(low: nat, longs: nat)
    ensures (low + 8 * longs) / 2 == low / 2 + 2 * (2 * longs) && (low + 8 * longs) / 4 == low / 4 + 2 * longs
  {
  }

  lemma AddSizeBits(n: nat, c: char, one: bool, two: bool, big: bool)
    requires (n % 2 == 1 <==> one) && (n / 2 % 2 == 1 <==> two) && (n / 4 % 2 == 1 <==> big) && (two ==> one)
    ensures AddSize(n, c) ==
            n + if c == 'h' then Bit(!one, 1) + Bit(one && !two, 2) else if c == 'L' then Bit(!big, 4) else 8
  {
  }

  /** The flags tell one `h` from several, whether there is an `L`, and how many long specifiers there are. */
  lemma {:induction false} SizeFlagsMeaning(s: string)
    requires All(s, IsSize)
    ensures var h, l, longs := Count(s, c => c == 'h'), Count(s, c => c == 'L'), Count(s, c => c != 'h' && c != 'L');
            SizeFlags(s) == Bit(h >= 1, 1) + Bit(h >= 2, 2) + Bit(l >= 1, 4) + 8 * longs
  {
    if s != "" {
      hide AddSize, Bit;
      var t := s[..|s| - 1];
      SizeFlagsMeaning(t);
      AddSizeMeaning(Count(t, c => c == 'h') >= 1, Count(t, c => c == 'h') >= 2, Count(t, c => c == 'L') >= 1,
                     Count(t, c => c != 'h' && c != 'L'), s[|s| - 1]);
    } else {
    }
  }

  // ----- Tiling -----

  /** Where the gap before directive `i` begins and ends, when the last gap ends at `end`. */
  function GapStart(dirs: seq<Directive>, i: nat): int
    requires i <= |dirs|
  {
    if i == 0 then 0 else dirs[i - 1].end
  }

  function GapEnd(dirs: seq<Directive>, i: nat, end: nat): int
    requires i <= |dirs|
  {
    if i == |dirs| then end else dirs[i].start
  }

  predicate Gap(f: string, i: int, j: int) { 0 <= i <= j <= |f| && forall k :: i <= k < j ==> f[k] != '%' }

  /** The directives and the gaps between them cover `f` up to `end`, in order. */
  predicate Tiling(f: string, dirs: seq<Directive>, end: nat) {
    && (forall i :: 0 <= i <= |dirs| ==> Gap(f, GapStart(dirs, i), GapEnd(dirs, i, end)))
    && (forall i {:trigger dirs[i]} :: 0 <= i < |dirs| ==>
          dirs[i].start + 1 < dirs[i].end <= |f| && f[dirs[i].start] == '%')
  }

  lemma TilingSkip(f: string, dirs: seq<Directive>, cp: nat)
    requires Tiling(f, dirs, cp) && cp < |f| && f[cp] != '%'
    ensures Tiling(f, dirs, cp + 1)
  {
    forall i | 0 <= i <= |dirs| ensures Gap(f, GapStart(dirs, i), GapEnd(dirs, i, cp + 1)) {
      assert Gap(f, GapStart(dirs, i), GapEnd(dirs, i, cp));
    }
  }

  lemma TilingAdd(f: string, dirs: seq<Directive>, d: Directive)
    requires Tiling(f, dirs, d.start) && d.start + 1 < d.end <= |f| && f[d.start] == '%'
    ensures Tiling(f, dirs + [d], d.end)
  {
    forall i | 0 <= i <= |dirs| + 1 ensures Gap(f, GapStart(dirs + [d], i), GapEnd(dirs + [d], i, d.end)) {
      if i <= |dirs| { assert Gap(f, GapStart(dirs, i), GapEnd(dirs, i, d.start)); }
    }
  }

  lemma {:induction false} ParseFromTiles(f: string, cp: nat, dirs: seq<Directive>, room: Size, s: State)
    requires cp <= |f| && StateOk(s) && Tiling(f, dirs, cp)
    ensures var r := ParseFrom(f, cp, dirs, room, s); r.Some? ==> Tiling(f, r.value.dirs, |f|)
    decreases |f| - cp
  {
    hide Tiling, DirectiveAt;
    if cp == |f| {
    } else if f[cp] != '%' {
      TilingSkip(f, dirs, cp);
      ParseFromTiles(f, cp + 1, dirs, room, s);
    } else {
      var d := DirectiveAt(f, cp, s);
      if d.Some? && ParseFrom(f, cp, dirs, room, s).Some? {
        TilingAdd(f, dirs, d.value.dir);
        var room1 := if |dirs| + 1 >= room then XTimes(room, 2) else room;
        ParseFromTiles(f, d.value.dir.end, dirs + [d.value.dir], room1, d.value.state);
      }
    }
  }

  /** The directives of an accepted format are in order and disjoint, and no `%` stands between them. */
  lemma FormatTiles(f: string)
    ensures var r := Parse(f); r.Some? ==> Tiling(f, r.value.dirs, |f|)
  {
    ParseFromTiles(f, 0, [], 1, NO_ARGS);
  }

  /** The gaps and the directives, put together again. */
  function Joined(f: string, dirs: seq<Directive>, end: nat): string
    requires Tiling(f, dirs, end)
  {
    if dirs == [] then
      assert Gap(f, GapStart(dirs, 0), GapEnd(dirs, 0, end)); f[..end]
    else
      var n := |dirs| - 1;
      TilingPrefix(f, dirs, end);
      Joined(f, dirs[..n], dirs[n].start) + f[dirs[n].start..dirs[n].end] + f[dirs[n].end..end]
  }

  lemma TilingPrefix(f: string, dirs: seq<Directive>, end: nat)
    requires Tiling(f, dirs, end) && dirs != []
    ensures var n := |dirs| - 1; Tiling(f, dirs[..n], dirs[n].start) && dirs[n].end <= end <= |f|
  {
    var n := |dirs| - 1;
    assert Gap(f, GapStart(dirs, n + 1), GapEnd(dirs, n + 1, end));
    forall i | 0 <= i <= n ensures Gap(f, GapStart(dirs[..n], i), GapEnd(dirs[..n], i, dirs[n].start)) {
      assert Gap(f, GapStart(dirs, i), GapEnd(dirs, i, end));
    }
  }

  lemma {:induction false} JoinedIsFormat(f: string, dirs: seq<Directive>, end: nat)
    requires Tiling(f, dirs, end)
    ensures end <= |f| && Joined(f, dirs, end) == f[..end]
    decreases |dirs|
  {
    if dirs == [] {
      assert Gap(f, GapStart(dirs, 0), GapEnd(dirs, 0, end));
    } else {
      hide Tiling;
      var n := |dirs| - 1;
      TilingPrefix(f, dirs, end);
      JoinedIsFormat(f, dirs[..n], dirs[n].start);
      DirectiveStands(f, dirs, end, n);
      ThreeSlices(f, dirs[n].start, dirs[n].end, end);
    }
  }

  lemma DirectiveStands(f: string, dirs: seq<Directive>, end: nat, i: nat)
    requires Tiling(f, dirs, end) && i < |dirs|
    ensures dirs[i].start + 1 < dirs[i].end <= |f| && f[dirs[i].start] == '%'
  {
  }

  lemma ThreeSlices(f: string, i: nat, j: nat, k: nat)
    requires i <= j <= k <= |f|
    ensures f[..k] == f[..i] + f[i..j] + f[j..k]
  {
  }

  // ----- Formats as they are written -----

  datatype Item = Plain(text: string) | Conv(spec: Spec)

  predicate ItemOk(x: Item) {
    match x
    case Plain(text) => '%' !in text
    case Conv(spec) => WellFormed(spec)
  }

  predicate ItemsOk(items: seq<Item>) { forall i :: 0 <= i < |items| ==> ItemOk(items[i]) }

  function ItemText(x: Item): string {
    match x
    case Plain(text) => text
    case Conv(spec) => Text(spec)
  }

  function Spell(items: seq<Item>): string {
    if items == [] then "" else ItemText(items[0]) + Spell(items[1..])
  }

  /** What `items` declare: their directives in order, each with the arguments it claims. */
  function Declare(items: seq<Item>, cp: nat, dirs: seq<Directive>, room: Size, s: State): Option<Format>
    requires ItemsOk(items) && StateOk(s)
    decreases |items|
  {
    if items == [] then Some(Format(dirs, s.args))
    else
      match items[0]
      case Plain(text) => Declare(items[1..], cp + |text|, dirs, room, s)
      case Conv(spec) =>
        match Apply(spec, cp, s)
        case None => None
        case Some(p) =>
          var room1 := if |dirs| + 1 >= room then XTimes(room, 2) else room;
          if |dirs| + 1 >= room && Overflow(XTimes(room1, DIRECTIVE_SIZE)) then None
          else Declare(items[1..], cp + |Text(spec)|, dirs + [p.dir], room1, p.state)
  }

  lemma {:induction false} ParseSkips(f: string, cp: nat, n: nat, dirs: seq<Directive>, room: Size, s: State)
    requires cp + n <= |f| && StateOk(s) && forall k :: cp <= k < cp + n ==> f[k] != '%'
    ensures ParseFrom(f, cp, dirs, room, s) == ParseFrom(f, cp + n, dirs, room, s)
    decreases n
  {
    hide ParseFrom, StateOk;
    if n > 0 {
      ParseSkipsOne(f, cp, dirs, room, s);
      ParseSkips(f, cp + 1, n - 1, dirs, room, s);
    }
  }

  lemma ParseSkipsOne(f: string, cp: nat, dirs: seq<Directive>, room: Size, s: State)
    requires cp < |f| && StateOk(s) && f[cp] != '%'
    ensures ParseFrom(f, cp, dirs, room, s) == ParseFrom(f, cp + 1, dirs, room, s)
  {
    hide DirectiveAt, StateOk;
  }

  lemma DirectiveSpelled(f: string, spec: Spec, cp: nat, s: State)
    requires WellFormed(spec) && StateOk(s) && TextAt(f, cp, Text(spec))
    ensures SpecOk(spec)
    ensures cp < |f| && f[cp] == '%' && cp + |Text(spec)| <= |f| && DirectiveAt(f, cp, s) == Apply(spec, cp, s)
  {
    hide Text, Apply, ReadSpec, SpecType;
    TextRead(f, cp, spec);
  }

  lemma {:induction false} ParseSpelledFrom(f: string, items: seq<Item>, cp: nat, dirs: seq<Directive>, room: Size,
                                            s: State)
    requires ItemsOk(items) && StateOk(s) && TextAt(f, cp, Spell(items)) && cp + |Spell(items)| == |f|
    ensures ParseFrom(f, cp, dirs, room, s) == Declare(items, cp, dirs, room, s)
    decreases |items|
  {
    hide TextAt, Apply, WellFormed, ReadSpec, Text, SpecOk, DirectiveAt;
    if items == [] {
    } else {
      TextSplit(f, cp, ItemText(items[0]), Spell(items[1..]));
      assert ItemOk(items[0]);
      match items[0]
      case Plain(text) =>
        forall k | cp <= k < cp + |text| ensures f[k] != '%' { TextChar(f, cp, text, k - cp); }
        ParseSkips(f, cp, |text|, dirs, room, s);
        ParseSpelledFrom(f, items[1..], cp + |text|, dirs, room, s);
      case Conv(spec) =>
        DirectiveSpelled(f, spec, cp, s);
        match Apply(spec, cp, s)
        case None =>
        case Some(p) =>
          var room1 := if |dirs| + 1 >= room then XTimes(room, 2) else room;
          ParseSpelledFrom(f, items[1..], cp + |Text(spec)|, dirs + [p.dir], room1, p.state);
    }
  }

  /** Parsing what was spelled gives what was meant. */
  lemma ParseSpelled(items: seq<Item>)
    requires ItemsOk(items)
    ensures Parse(Spell(items)) == Declare(items, 0, [], 1, NO_ARGS)
  {
    ParseSpelledFrom(Spell(items), items, 0, [], 1, NO_ARGS);
  }

  lemma SpellNothing(f: string)
    ensures ItemsOk([]) && Spell([]) == f[|f|..]
  {
  }

  lemma SpellCons(f: string, x: Item, rest: seq<Item>, i: nat, j: nat)
    requires ItemOk(x) && ItemsOk(rest)
    requires i <= j <= |f| && ItemText(x) == f[i..j] && Spell(rest) == f[j..]
    ensures ItemsOk([x] + rest) && Spell([x] + rest) == f[i..]
  {
    hide ItemOk, ItemText;
    var all := [x] + rest;
    assert all[1..] == rest && all[0] == x;
    assert Spell(all) == ItemText(x) + Spell(rest);
    assert f[i..] == f[i..j] + f[j..];
  }

  lemma DirectiveIsSpelled(f: string, cp: nat, s: State)
    requires cp < |f| && f[cp] == '%' && '\0' !in f && StateOk(s) && DirectiveAt(f, cp, s).Some?
    ensures WellFormed(ReadSpec(f, cp)) && f[cp..DirectiveAt(f, cp, s).value.dir.end] == Text(ReadSpec(f, cp))
  {
    hide Text, Apply, ReadSpec, SpecType;
    ReadSpecText(f, cp);
  }

  lemma {:induction false} ParsedIsSpelledFrom(f: string, cp: nat, dirs: seq<Directive>, room: Size, s: State)
      returns (items: seq<Item>)
    requires cp <= |f| && StateOk(s) && '\0' !in f && ParseFrom(f, cp, dirs, room, s).Some?
    ensures ItemsOk(items) && Spell(items) == f[cp..]
    decreases |f| - cp
  {
    hide WellFormed, Text, Apply, ReadSpec, SpecType, DirectiveAt, TextAt, Spell, ItemsOk;
    if cp == |f| {
      items := [];
      SpellNothing(f);
    } else if f[cp] != '%' {
      var rest := ParsedIsSpelledFrom(f, cp + 1, dirs, room, s);
      items := [Plain([f[cp]])] + rest;
      SpellCons(f, Plain([f[cp]]), rest, cp, cp + 1);
    } else {
      var d := DirectiveAt(f, cp, s).value;
      var room1 := if |dirs| + 1 >= room then XTimes(room, 2) else room;
      var rest := ParsedIsSpelledFrom(f, d.dir.end, dirs + [d.dir], room1, d.state);
      DirectiveIsSpelled(f, cp, s);
      items := [Conv(ReadSpec(f, cp))] + rest;
      SpellCons(f, Conv(ReadSpec(f, cp)), rest, cp, d.dir.end);
    }
  }

  /** Only formats of the grammar are accepted. */
  lemma ParsedIsSpelled(f: string)
    requires '\0' !in f && Parse(f).Some?
    ensures exists items :: ItemsOk(items) && Spell(items) == f
  {
    var items := ParsedIsSpelledFrom(f, 0, [], 1, NO_ARGS);
    assert f[0..] == f;
  }

  // ----- Argument types -----

  /** Types that are known stay as they are. */
  predicate Extends(a: seq<ArgType>, b: seq<ArgType>) {
    |a| <= |b| && forall k :: 0 <= k < |a| ==> a[k] == TypeNone || b[k] == a[k]
  }

  predicate HasType(args: seq<ArgType>, index: nat, t: ArgType) { index < |args| && args[index] == t }

  /** The directive and the slots it uses agree with what is written in the format. */
  predicate TypedBy(spec: Spec, d: Directive, args: seq<ArgType>) {
    && SpecType(spec).Some? && d.conversion == StoredConversion(spec.conversion)
    && (d.index == ARG_NONE <==> spec.conversion == '%')
    && (d.index != ARG_NONE ==> HasType(args, d.index, SpecType(spec).value))
    && (spec.width.Star? <==> d.width.index != ARG_NONE)
    && (d.width.index != ARG_NONE ==> HasType(args, d.width.index, TypeInt))
    && (spec.precision.Star? <==> d.precision.index != ARG_NONE)
    && (d.precision.index != ARG_NONE ==> HasType(args, d.precision.index, TypeInt))
  }

  predicate Uses(d: Directive, k: nat) {
    k != ARG_NONE && (d.index == k || d.width.index == k || d.precision.index == k)
  }

  /** The last slot has a type. */
  predicate EndsTyped(args: seq<ArgType>) { args != [] ==> args[|args| - 1] != TypeNone }

  /** Slots typed in `b` were typed in `a` or have index `k`. */
  predicate OnlyAdds(a: seq<ArgType>, b: seq<ArgType>, k: nat) {
    forall i :: 0 <= i < |b| && b[i] != TypeNone ==> (i < |a| && a[i] != TypeNone) || i == k
  }

  lemma ConversionNone(c: char, flags: nat)
    ensures ConversionType(c, flags) == Some(TypeNone) <==> c == '%'
  {
  }

  lemma RegisterTypes(s: State, n: Size, t: ArgType)
    requires StateOk(s) && t != TypeNone && Register(s, n, t).Some?
    ensures var a := Register(s, n, t).value.args;
            Extends(s.args, a) && HasType(a, n, t) && OnlyAdds(s.args, a, n) && (EndsTyped(s.args) ==> EndsTyped(a))
  {
  }

  lemma ClaimTypes(s: State, given: Size, t: ArgType)
    requires StateOk(s) && t != TypeNone && ClaimArg(s, given, t).Some?
    ensures var c := ClaimArg(s, given, t).value;
            && Extends(s.args, c.state.args) && HasType(c.state.args, c.index, t) && c.index < ARG_NONE
            && OnlyAdds(s.args, c.state.args, c.index) && (EndsTyped(s.args) ==> EndsTyped(c.state.args))
  {
    hide Extends, HasType, OnlyAdds, EndsTyped, Register;
    var s1 := if given != ARG_NONE then s else s.(posn := s.posn + 1);
    RegisterTypes(s1, if given != ARG_NONE then given else s.posn, t);
  }

  lemma FieldTypes(s: State, w: FieldSpec)
    requires StateOk(s) && FieldOk(w) && ClaimField(s, w).Some?
    ensures var c := ClaimField(s, w).value;
            && Extends(s.args, c.state.args) && (w.Star? <==> c.index != ARG_NONE)
            && (w.Star? ==> HasType(c.state.args, c.index, TypeInt))
            && OnlyAdds(s.args, c.state.args, c.index) && (EndsTyped(s.args) ==> EndsTyped(c.state.args))
  {
    hide HasType, EndsTyped, ClaimArg;
    if w.Star? { ClaimTypes(s, Given(w.posn).value, TypeInt); }
  }

  lemma ApplyTypes(spec: Spec, start: nat, s: State)
    requires StateOk(s) && SpecOk(spec) && Apply(spec, start, s).Some?
    ensures var p := Apply(spec, start, s).value;
            && Extends(s.args, p.state.args) && TypedBy(spec, p.dir, p.state.args)
            && (forall k :: 0 <= k < |p.state.args| && p.state.args[k] != TypeNone ==>
                  (k < |s.args| && s.args[k] != TypeNone) || Uses(p.dir, k))
            && (EndsTyped(s.args) ==> EndsTyped(p.state.args))
  {
    hide ClaimArg, ClaimField, Given, ConversionType, SizeFlags, EndsTyped;
    var w := ClaimField(s, spec.width).value;
    var p := ClaimField(w.state, spec.precision).value;
    var t := SpecType(spec).value;
    FieldTypes(s, spec.width);
    FieldTypes(w.state, spec.precision);
    ConversionNone(spec.conversion, SizeFlags(spec.sizes));
    if t != TypeNone { ClaimTypes(p.state, Given(spec.posn).value, t); }
  }

  /** The fields of the directive are where `spec` has them. */
  predicate Describes(spec: Spec, d: Directive) {
    && d.end == d.start + |Text(spec)| && d.flags == FlagsOf(spec.flags)
    && d.width == WidthField(spec.width, WidthStart(d.start, spec), d.width.index)
    && d.precision == PrecisionField(spec.precision, PrecisionStart(d.start, spec), d.precision.index)
  }

  lemma ApplyDescribes(spec: Spec, start: nat, s: State)
    requires StateOk(s) && SpecOk(spec) && Apply(spec, start, s).Some?
    ensures Describes(spec, Apply(spec, start, s).value.dir)
  {
    hide ClaimArg, ClaimField, Given, ConversionType, SizeFlags, FlagsOf, Text, PosnText, WidthText;
  }

  /** The directive stands in the format, and its slots have the types that it asks for. */
  ghost predicate Stands(f: string, d: Directive, args: seq<ArgType>) {
    && d.start < |f| && WellFormed(ReadSpec(f, d.start)) && TextAt(f, d.start, Text(ReadSpec(f, d.start)))
    && Describes(ReadSpec(f, d.start), d) && TypedBy(ReadSpec(f, d.start), d, args)
  }

  lemma StandsLonger(f: string, d: Directive, a: seq<ArgType>, b: seq<ArgType>)
    requires Stands(f, d, a) && Extends(a, b)
    ensures Stands(f, d, b)
  {
    hide WellFormed, TextAt, Describes, ConversionType, SizeFlags, ReadSpec, StoredConversion;
    TypedLonger(ReadSpec(f, d.start), d, a, b);
  }

  lemma TypedLonger(spec: Spec, d: Directive, a: seq<ArgType>, b: seq<ArgType>)
    requires TypedBy(spec, d, a) && Extends(a, b)
    ensures TypedBy(spec, d, b)
  {
    hide StoredConversion;
    ConversionNone(spec.conversion, SizeFlags(spec.sizes));
  }

  ghost predicate Used(dirs: seq<Directive>, k: nat) { exists i :: 0 <= i < |dirs| && Uses(dirs[i], k) }

  /** Every directive stands, every typed slot is used, and the last slot is typed. */
  ghost predicate FormatOk(f: string, dirs: seq<Directive>, args: seq<ArgType>) {
    && (forall i :: 0 <= i < |dirs| ==> Stands(f, dirs[i], args))
    && (forall k :: 0 <= k < |args| && args[k] != TypeNone ==> Used(dirs, k))
    && EndsTyped(args)
  }

  lemma DirectiveStandsAt(f: string, cp: nat, s: State)
    requires cp < |f| && f[cp] == '%' && '\0' !in f && StateOk(s) && DirectiveAt(f, cp, s).Some?
    ensures var p := DirectiveAt(f, cp, s).value;
            && Stands(f, p.dir, p.state.args) && Extends(s.args, p.state.args)
            && (forall k :: 0 <= k < |p.state.args| && p.state.args[k] != TypeNone ==>
                  (k < |s.args| && s.args[k] != TypeNone) || Uses(p.dir, k))
            && (EndsTyped(s.args) ==> EndsTyped(p.state.args))
  {
    hide Apply, SpecType, TextAt, Text, ReadSpec, WellFormed, Describes, TypedBy, Extends, Uses, EndsTyped;
    ReadSpecText(f, cp);
    ApplyDescribes(ReadSpec(f, cp), cp, s);
    ApplyTypes(ReadSpec(f, cp), cp, s);
  }

  lemma FormatOkAdd(f: string, cp: nat, dirs: seq<Directive>, s: State)
    requires cp < |f| && f[cp] == '%' && '\0' !in f && StateOk(s) && DirectiveAt(f, cp, s).Some?
    requires FormatOk(f, dirs, s.args)
    ensures var p := DirectiveAt(f, cp, s).value; FormatOk(f, dirs + [p.dir], p.state.args)
  {
    hide DirectiveAt, Stands, Extends, Uses;
    var p := DirectiveAt(f, cp, s).value;
    var dirs1 := dirs + [p.dir];
    DirectiveStandsAt(f, cp, s);
    forall i | 0 <= i < |dirs1| ensures Stands(f, dirs1[i], p.state.args) {
      if i < |dirs| { StandsLonger(f, dirs[i], s.args, p.state.args); }
    }
    forall k | 0 <= k < |p.state.args| && p.state.args[k] != TypeNone ensures Used(dirs1, k) {
      if Uses(p.dir, k) {
        assert dirs1[|dirs|] == p.dir;
      } else {
        assert Used(dirs, k);
        var i :| 0 <= i < |dirs| && Uses(dirs[i], k);
        assert dirs1[i] == dirs[i];
      }
    }
  }

  lemma {:induction false} ParseFromOk(f: string, cp: nat, dirs: seq<Directive>, room: Size, s: State)
    requires cp <= |f| && '\0' !in f && StateOk(s) && FormatOk(f, dirs, s.args)
    ensures var r := ParseFrom(f, cp, dirs, room, s); r.Some? ==> FormatOk(f, r.value.dirs, r.value.args)
    decreases |f| - cp
  {
    hide FormatOk, DirectiveAt;
    if cp == |f| {
    } else if f[cp] != '%' {
      ParseFromOk(f, cp + 1, dirs, room, s);
    } else {
      var d := DirectiveAt(f, cp, s);
      if d.Some? && ParseFrom(f, cp, dirs, room, s).Some? {
        FormatOkAdd(f, cp, dirs, s);
        var room1 := if |dirs| + 1 >= room then XTimes(room, 2) else room;
        ParseFromOk(f, d.value.dir.end, dirs + [d.value.dir], room1, d.value.state);
      }
    }
  }

  /** In an accepted format every directive is one of the grammar, every slot it uses has exactly the type it
      asks for, and there are no more slots than the largest one used. */
  lemma FormatTyped(f: string)
    requires '\0' !in f
    ensures var r := Parse(f); r.Some? ==> FormatOk(f, r.value.dirs, r.value.args)
  {
    ParseFromOk(f, 0, [], 1, NO_ARGS);
  }
}
