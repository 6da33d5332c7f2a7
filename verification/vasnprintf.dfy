/** `vasnprintf`: formatted output into a buffer that grows, with the work left to `snprintf`. */
module Vasnprintf {
  import opened CStrings
  import opened XSize
  import opened PrintfParse
  import opened PrintfGrammar
  import opened PrintfFormat
  import opened PrintfRebuild
  import opened PrintfParser

  const INT_MAX: nat := 0x7fff_ffff

  /** The text that a directive without positions makes of its prefix arguments and its value; `snprintf`
      can only report lengths that are an `int`. */
  type Formatter = fmt: (string, seq<int>, int) -> string |
    forall directive, prefixes, value :: |fmt(directive, prefixes, value)| <= INT_MAX
    witness (directive: string, prefixes: seq<int>, value: int) => ""

  /** Whether `snprintf` knows `%n`, and whether it returns the full length when the buffer is too small. */
  datatype Library = Library(countsN: bool, reportsLength: bool)

  // ----- What the output is -----

  predicate IsCount(t: ArgType) {
    t.CountSChar? || t.CountShort? || t.CountInt? || t.CountLong? || t.CountLongLong?
  }

  /** The directive uses arguments that exist, and the types that the switches expect. */
  predicate Usable(f: string, d: Directive, args: seq<ArgType>) {
    && InFormat(f, d) && d.conversion != '\0'
    && (d.conversion == '%' <==> d.index == ARG_NONE)
    && (d.index != ARG_NONE ==> d.index < |args| && args[d.index] != TypeNone
                                && (IsCount(args[d.index]) <==> d.conversion == 'n'))
    && (d.width.index != ARG_NONE ==> d.width.index < |args| && args[d.width.index] == TypeInt)
    && (d.precision.index != ARG_NONE ==> d.precision.index < |args| && args[d.precision.index] == TypeInt)
  }

  lemma ConversionCounts(c: char, flags: nat)
    requires ConversionType(c, flags).Some?
    ensures var t := ConversionType(c, flags).value;
            (IsCount(t) <==> c == 'n') && (t == TypeNone <==> c == '%') && (StoredConversion(c) == '%' <==> c == '%')
            && (StoredConversion(c) == 'n' <==> c == 'n') && StoredConversion(c) != '\0'
  {
  }

  /** None of the consistency checks of `vasnprintf` can fail on a directive of an accepted format. */
  lemma StandsUsable(f: string, d: Directive, args: seq<ArgType>)
    requires Stands(f, d, args)
    ensures Usable(f, d, args)
  {
    hide ConversionType, Text, TextAt, WellFormed, FlagsOf, ReadSpec, WidthField, PrecisionField, StoredConversion;
    var spec := ReadSpec(f, d.start);
    ConversionCounts(spec.conversion, SizeFlags(spec.sizes));
    Layout(f, d.start, spec);
    FieldTexts(f, d, spec);
  }

  /** The `int` arguments of the width and the precision. */
  function Prefixes(d: Directive, values: seq<int>): seq<int>
    requires d.width.index != ARG_NONE ==> d.width.index < |values|
    requires d.precision.index != ARG_NONE ==> d.precision.index < |values|
  {
    (if d.width.index != ARG_NONE then [values[d.width.index]] else [])
    + (if d.precision.index != ARG_NONE then [values[d.precision.index]] else [])
  }

  /** What is passed to `snprintf` behind the rebuilt directive. */
  function PassedValues(d: Directive, values: seq<int>): seq<int>
    requires d.width.index != ARG_NONE ==> d.width.index < |values|
    requires d.precision.index != ARG_NONE ==> d.precision.index < |values|
    requires d.index < |values|
  {
    Prefixes(d, values) + [values[d.index]]
  }

  /** The directive `p` takes the width, the precision and the value of `d`, as far as there are any, from its first
      `n` slots one after another. */
  predicate InOrder(p: Directive, n: nat, d: Directive) {
    var w, q := if d.width.index != ARG_NONE then 1 else 0, if d.precision.index != ARG_NONE then 1 else 0;
    && n == w + q + 1 && p.index == w + q
    && p.width.index == (if w == 1 then 0 else ARG_NONE) && p.precision.index == (if q == 1 then w else ARG_NONE)
  }

  lemma AppliedSlots(g: Spec, d: Directive)
    requires WellFormed(g) && g.posn == "" && g.conversion != '%'
    requires (g.width.Star? ==> g.width.posn == "") && (g.precision.Star? ==> g.precision.posn == "")
    requires (g.width.Star? <==> d.width.index != ARG_NONE) && (g.precision.Star? <==> d.precision.index != ARG_NONE)
    ensures var p := Apply(g, 0, NO_ARGS); p.Some? && InOrder(p.value.dir, |p.value.state.args|, d)
  {
    hide ClaimArg, ConversionType, SizeFlags, Text, FlagsOf, WellFormed;
    ApplyInOrder(g);
  }

  lemma RebuiltStars(spec: Spec, d: Directive, args: seq<ArgType>)
    requires TypedBy(spec, d, args) && SpecType(spec).Some?
    ensures var g := RebuiltSpec(spec);
            && g.posn == "" && (g.width.Star? <==> d.width.index != ARG_NONE)
            && (g.precision.Star? <==> d.precision.index != ARG_NONE)
            && g.conversion == StoredConversion(spec.conversion)
            && (g.width.Star? ==> g.width.posn == "") && (g.precision.Star? ==> g.precision.posn == "")
  {
    hide FlagText, FlagsOf, SizeText, SpecType, StoredConversion;
  }

  /** What the rebuilt directive takes when it is read with nothing claimed before. */
  lemma RebuiltSlots(f: string, d: Directive, args: seq<ArgType>)
    requires Stands(f, d, args) && InFormat(f, d) && d.index < |args| && d.index != ARG_NONE && d.conversion != 'n'
    ensures var r := Rebuild(f, d, args[d.index]);
            && |r| > 0 && DirectiveAt(r, 0, NO_ARGS).Some?
            && InOrder(DirectiveAt(r, 0, NO_ARGS).value.dir, |DirectiveAt(r, 0, NO_ARGS).value.state.args|, d)
  {
    var spec := ReadSpec(f, d.start);
    RebuiltMeaning(f, d, args);
    NotPercent(spec, d, args);
    RebuiltWellFormed(spec);
    RebuiltStars(spec, d, args);
    hide FlagsOf, WellFormed, ReadSpec, Text, SpecType, FlagText, Rebuild, SizeText, Apply, ConversionType, TextAt,
      Passed, RebuiltSpec, Stands, TypedBy, InOrder, SpecOk;
    AppliedSlots(RebuiltSpec(spec), d);
  }

  lemma PrefixesAre(d: Directive, values: seq<int>)
    requires d.width.index != ARG_NONE ==> d.width.index < |values|
    requires d.precision.index != ARG_NONE ==> d.precision.index < |values|
    requires d.index < |values|
    ensures var passed, w := PassedValues(d, values), if d.width.index != ARG_NONE then 1 else 0;
            && |passed| == w + (if d.precision.index != ARG_NONE then 1 else 0) + 1
            && passed[|passed| - 1] == values[d.index]
            && (d.width.index != ARG_NONE ==> passed[0] == values[d.width.index])
            && (d.precision.index != ARG_NONE ==> passed[w] == values[d.precision.index])
  {
  }

  /** The slots of `p` hold what `d` uses. */
  predicate TakesFrom(p: Directive, passed: seq<int>, d: Directive, values: seq<int>)
    requires d.width.index != ARG_NONE ==> d.width.index < |values|
    requires d.precision.index != ARG_NONE ==> d.precision.index < |values|
    requires d.index < |values|
  {
    && p.index < |passed| && passed[p.index] == values[d.index]
    && (d.width.index != ARG_NONE <==> p.width.index != ARG_NONE)
    && (d.width.index != ARG_NONE ==> p.width.index < |passed| && passed[p.width.index] == values[d.width.index])
    && (d.precision.index != ARG_NONE <==> p.precision.index != ARG_NONE)
    && (d.precision.index != ARG_NONE ==>
          p.precision.index < |passed| && passed[p.precision.index] == values[d.precision.index])
  }

  lemma InOrderTakes(p: Directive, n: nat, d: Directive, values: seq<int>)
    requires d.width.index != ARG_NONE ==> d.width.index < |values|
    requires d.precision.index != ARG_NONE ==> d.precision.index < |values|
    requires d.index < |values| && InOrder(p, n, d)
    ensures |PassedValues(d, values)| == n && TakesFrom(p, PassedValues(d, values), d, values)
  {
    hide PassedValues;
    PrefixesAre(d, values);
  }

  /** `snprintf`, reading the rebuilt directive, finds the width, the precision and the value of the original one in
      the slots that it takes them from, and nothing else is passed. */
  lemma PassedInPlace(f: string, d: Directive, args: seq<ArgType>, values: seq<int>)
    requires Stands(f, d, args) && d.index != ARG_NONE && d.conversion != 'n' && |values| == |args|
    requires Usable(f, d, args)
    ensures |Rebuild(f, d, args[d.index])| > 0 && DirectiveAt(Rebuild(f, d, args[d.index]), 0, NO_ARGS).Some?
    ensures var p := DirectiveAt(Rebuild(f, d, args[d.index]), 0, NO_ARGS).value;
            TakesFrom(p.dir, PassedValues(d, values), d, values) && |PassedValues(d, values)| == |p.state.args|
  {
    hide Stands, Rebuild, DirectiveAt, PassedValues, TakesFrom, InOrder;
    RebuiltSlots(f, d, args);
    var p := DirectiveAt(Rebuild(f, d, args[d.index]), 0, NO_ARGS).value;
    InOrderTakes(p.dir, |p.state.args|, d, values);
  }

  /** What a directive puts into the output. */
  function Output(f: string, d: Directive, args: seq<ArgType>, values: seq<int>, fmt: Formatter): string
    requires Usable(f, d, args) && |values| == |args|
  {
    if d.conversion == '%' then "%"
    else if d.conversion == 'n' then ""
    else fmt(Rebuild(f, d, args[d.index]), Prefixes(d, values), values[d.index])
  }

  /** The format is in order and its directives are usable. */
  ghost predicate Printable(f: string, r: Format) {
    Tiling(f, r.dirs, |f|) && forall i :: 0 <= i < |r.dirs| ==> Usable(f, r.dirs[i], r.args)
  }

  lemma AcceptedPrintable(f: string)
    requires '\0' !in f && Parse(f).Some?
    ensures Printable(f, Parse(f).value)
  {
    hide Parse, Stands, Usable;
    var r := Parse(f).value;
    FormatTiles(f);
    FormatTyped(f);
    forall i | 0 <= i < |r.dirs| ensures Usable(f, r.dirs[i], r.args) { StandsUsable(f, r.dirs[i], r.args); }
  }

  /** The literal text before directive `i`, or after the last one. */
  ghost function Literal(f: string, r: Format, i: nat): string
    requires Printable(f, r) && i <= |r.dirs|
  {
    assert Gap(f, GapStart(r.dirs, i), GapEnd(r.dirs, i, |f|));
    f[GapStart(r.dirs, i)..GapEnd(r.dirs, i, |f|)]
  }

  /** The output of the first `n` directives, with the text before each of them. */
  ghost function Rendered(f: string, r: Format, values: seq<int>, fmt: Formatter, n: nat): string
    requires Printable(f, r) && n <= |r.dirs| && |values| == |r.args|
  {
    if n == 0 then ""
    else Rendered(f, r, values, fmt, n - 1) + Literal(f, r, n - 1) + Output(f, r.dirs[n - 1], r.args, values, fmt)
  }

  /** The whole output: the literal pieces and the formatted directives. */
  ghost function Render(f: string, r: Format, values: seq<int>, fmt: Formatter): string
    requires Printable(f, r) && |values| == |r.args|
  {
    Rendered(f, r, values, fmt, |r.dirs|) + Literal(f, r, |r.dirs|)
  }

  /** The arguments that `%n` directives set, and the lengths they get. */
  ghost function Counts(f: string, r: Format, values: seq<int>, fmt: Formatter, n: nat): seq<(Size, nat)>
    requires Printable(f, r) && n <= |r.dirs| && |values| == |r.args|
  {
    if n == 0 then []
    else
      var before := Counts(f, r, values, fmt, n - 1);
      if r.dirs[n - 1].conversion == 'n'
      then before + [(r.dirs[n - 1].index, |Rendered(f, r, values, fmt, n - 1)| + |Literal(f, r, n - 1)|)]
      else before
  }

  lemma {:induction false} RenderedWithin(f: string, r: Format, values: seq<int>, fmt: Formatter, n: nat)
    requires Printable(f, r) && n < |r.dirs| && |values| == |r.args|
    ensures |Rendered(f, r, values, fmt, n)| + |Literal(f, r, n)| + |Output(f, r.dirs[n], r.args, values, fmt)|
            <= |Render(f, r, values, fmt)|
    decreases |r.dirs| - n
  {
    hide Literal, Output, Printable;
    if n + 1 < |r.dirs| { RenderedWithin(f, r, values, fmt, n + 1); }
  }

  /** The output from directive `i` on, piece by piece. */
  ghost function Weave(f: string, r: Format, values: seq<int>, fmt: Formatter, i: nat): string
    requires Printable(f, r) && i <= |r.dirs| && |values| == |r.args|
    decreases |r.dirs| - i
  {
    if i == |r.dirs| then Literal(f, r, i)
    else Literal(f, r, i) + Output(f, r.dirs[i], r.args, values, fmt) + Weave(f, r, values, fmt, i + 1)
  }

  /** The output is literal text and formatted values in turn, in the order of the format. */
  lemma {:induction false} RenderMeaning(f: string, r: Format, values: seq<int>, fmt: Formatter, i: nat)
    requires Printable(f, r) && i <= |r.dirs| && |values| == |r.args|
    ensures Render(f, r, values, fmt) == Rendered(f, r, values, fmt, i) + Weave(f, r, values, fmt, i)
    ensures i == 0 ==> Render(f, r, values, fmt) == Weave(f, r, values, fmt, 0)
    decreases |r.dirs| - i
  {
    hide Printable, Literal, Output, Usable;
    if i < |r.dirs| {
      DirectiveUsable(f, r, i);
      RenderMeaning(f, r, values, fmt, i + 1);
      var a, l, o := Rendered(f, r, values, fmt, i), Literal(f, r, i), Output(f, r.dirs[i], r.args, values, fmt);
      var rest := Weave(f, r, values, fmt, i + 1);
      assert a + l + o + rest == a + (l + o + rest);
    }
    if i == 0 { assert "" + Weave(f, r, values, fmt, 0) == Weave(f, r, values, fmt, 0); }
  }

  /** `%%` puts out one percent sign, and `%n` nothing but the length so far, into its argument. */
  lemma OutputMeaning(f: string, r: Format, values: seq<int>, fmt: Formatter, i: nat)
    requires Printable(f, r) && i < |r.dirs| && |values| == |r.args|
    ensures r.dirs[i].conversion == '%' ==> Output(f, r.dirs[i], r.args, values, fmt) == "%"
    ensures r.dirs[i].conversion == 'n' ==> Output(f, r.dirs[i], r.args, values, fmt) == ""
    ensures Counts(f, r, values, fmt, i + 1) == Counts(f, r, values, fmt, i)
            + (if r.dirs[i].conversion == 'n'
               then [(r.dirs[i].index, |Rendered(f, r, values, fmt, i) + Literal(f, r, i)|)] else [])
  {
    NextDirective(f, r, values, fmt, i);
  }

  // ----- The buffer -----

  /** The size after `ENSURE_ALLOCATION (needed)`, for a buffer that is too small. */
  function Grown(space: Size, needed: Size): (r: Size)
    ensures r >= needed
  {
    var size := if space > 0 then XTimes(space, 2) else 12;
    if needed > size then needed else size
  }

  /** The buffer doubles, or gets what is needed if that is more; the first one has 12 characters at least. */
  lemma GrownIs(space: Size, needed: Size)
    ensures Grown(0, needed) == if needed > 12 then needed else 12
    ensures space > 0 ==> Grown(space, needed) == if needed > 2 * space then needed else Min(2 * space, SIZE_MAX)
  {
  }

  /** The size after `ENSURE_ALLOCATION (needed)`; SIZE_MAX stands for its failure, and stays. */
  function Room(size: Size, needed: nat): (r: Size)
    ensures r >= size && r >= Min(needed, SIZE_MAX) && (size < needed && size < SIZE_MAX ==> r > size)
  {
    if size == SIZE_MAX || needed <= size then size else Grown(size, Min(needed, SIZE_MAX))
  }

  /** What is asked for when `t` characters do not fit behind `length`: their length is known or not. */
  function MoreNeed(size: Size, length: nat, t: nat, known: bool): nat {
    if !known then 2 * size + 12 else if length + t > 2 * size then length + t else 2 * size
  }

  /** The size with which `t` characters fit behind `length`. */
  function FitSize(size: Size, length: nat, t: nat, known: bool): (r: Size)
    requires size == SIZE_MAX || length < size
    ensures r >= size
    decreases SIZE_MAX - size
  {
    if size == SIZE_MAX || length + t < size then size
    else FitSize(Room(size, MoreNeed(size, length, t, known)), length, t, known)
  }

  /** The size after a literal text of `n` characters. */
  function LiteralSize(size: Size, length: nat, n: nat): Size { if n == 0 then size else Room(size, length + n) }

  predicate LengthKnown(lib: Library) { lib.countsN || lib.reportsLength }

  /** The size after a directive whose output has `t` characters. */
  function DirectiveSize(size: Size, length: nat, conversion: char, t: nat, lib: Library): Size {
    if conversion == '%' then Room(size, length + 1)
    else if conversion == 'n' then size
    else FitSize(Room(size, length + 1), length, t, LengthKnown(lib))
  }

  /** `%%` takes the room of one literal character, `%n` none, and a value at least the room of its text with a null
      character; a buffer that is large enough stays as it is. */
  lemma DirectiveSizeMeaning(size: Size, length: nat, conversion: char, t: nat, lib: Library)
    ensures conversion == '%' ==> DirectiveSize(size, length, conversion, t, lib) == LiteralSize(size, length, 1)
    ensures conversion == 'n' ==> DirectiveSize(size, length, conversion, t, lib) == size
    ensures conversion != '%' && conversion != 'n' ==>
              DirectiveSize(size, length, conversion, t, lib) >= Min(length + t + 1, SIZE_MAX)
    ensures length + t < size ==> DirectiveSize(size, length, conversion, t, lib) == size
  {
    FitEnough(Room(size, length + 1), length, t, LengthKnown(lib));
  }

  lemma {:induction false} FitEnough(size: Size, length: nat, t: nat, known: bool)
    requires size == SIZE_MAX || length < size
    ensures FitSize(size, length, t, known) >= Min(length + t + 1, SIZE_MAX)
    decreases SIZE_MAX - size
  {
    hide Room, MoreNeed;
    if size < SIZE_MAX && length + t >= size {
      MoreThanBefore(size, length, t, known);
      FitEnough(Room(size, MoreNeed(size, length, t, known)), length, t, known);
    }
  }

  lemma MoreThanBefore(size: Size, length: nat, t: nat, known: bool)
    requires length < size < SIZE_MAX && length + t >= size
    ensures Room(size, MoreNeed(size, length, t, known)) > size
  {
  }

  /** The size when the first `n` directives are done, from a buffer of `space` characters. */
  ghost function SizeBefore(f: string, r: Format, values: seq<int>, fmt: Formatter, lib: Library, space: Size,
                            n: nat): Size
    requires Printable(f, r) && n <= |r.dirs| && |values| == |r.args|
    decreases n, 0
  {
    if n == 0 then space
    else
      var length := |Rendered(f, r, values, fmt, n - 1)| + |Literal(f, r, n - 1)|;
      DirectiveSize(SizeBehind(f, r, values, fmt, lib, space, n - 1), length, r.dirs[n - 1].conversion,
                    |Output(f, r.dirs[n - 1], r.args, values, fmt)|, lib)
  }

  /** The size when the literal behind them is done as well. */
  ghost function SizeBehind(f: string, r: Format, values: seq<int>, fmt: Formatter, lib: Library, space: Size,
                            n: nat): Size
    requires Printable(f, r) && n <= |r.dirs| && |values| == |r.args|
    decreases n, 1
  {
    LiteralSize(SizeBefore(f, r, values, fmt, lib, space, n), |Rendered(f, r, values, fmt, n)|, |Literal(f, r, n)|)
  }

  /** The size at the end, with room for the null character. */
  ghost function FinalSize(f: string, r: Format, values: seq<int>, fmt: Formatter, lib: Library, space: Size): Size
    requires Printable(f, r) && |values| == |r.args|
  {
    Room(SizeBehind(f, r, values, fmt, lib, space, |r.dirs|), |Render(f, r, values, fmt)| + 1)
  }

  /** A failure is final. */
  lemma {:induction false} FailureStays(f: string, r: Format, values: seq<int>, fmt: Formatter, lib: Library,
                                        space: Size, n: nat)
    requires Printable(f, r) && n <= |r.dirs| && |values| == |r.args|
    ensures SizeBefore(f, r, values, fmt, lib, space, n) == SIZE_MAX ==>
              SizeBehind(f, r, values, fmt, lib, space, n) == SIZE_MAX
    ensures SizeBehind(f, r, values, fmt, lib, space, n) == SIZE_MAX ==>
              FinalSize(f, r, values, fmt, lib, space) == SIZE_MAX
    decreases |r.dirs| - n
  {
    hide Printable, Rendered, Literal, Output, Render;
    if n < |r.dirs| { FailureStays(f, r, values, fmt, lib, space, n + 1); }
  }

  /** Makes room for `needed` characters and keeps the first `length`. */
  method EnsureAllocation(result: array<char>, length: nat, needed: Size) returns (ok: bool, memory: array<char>)
    requires length <= result.Length <= SIZE_MAX
    ensures needed <= result.Length ==> ok && memory == result
    ensures needed > result.Length ==>
              (ok <==> !Overflow(Grown(result.Length, needed)))
              && (ok ==> fresh(memory) && memory.Length == Grown(result.Length, needed))
    ensures ok ==> needed <= memory.Length < SIZE_MAX || memory == result
    ensures memory == result || fresh(memory)
    ensures ok ==> length <= memory.Length && memory[..length] == result[..length]
  {
    ok, memory := true, result;
    if needed > result.Length {
      var space := Grown(result.Length, needed);
      if Overflow(XTimes(space, 1)) {
        return false, result;
      }
      memory := new char[space];
      for i := 0 to length
        invariant memory[..i] == result[..i]
      {
        memory[i] := result[i];
      }
    }
  }

  /** The buffer is the caller's as long as that is larger than `total`, and it never grows beyond what `total`
      needs. */
  ghost predicate Sized(result: array<char>, resultbuf: array<char>, total: nat) {
    && result.Length < SIZE_MAX
    && (resultbuf.Length > total ==> result == resultbuf)
    && (result == resultbuf || result.Length <= 2 * total + 12)
  }

  lemma SizedBelow(result: array<char>, resultbuf: array<char>, total: nat)
    requires Sized(result, resultbuf, total)
    ensures result.Length < SIZE_MAX
  {
  }

  lemma GrownBound(length: Size, needed: Size, total: nat)
    requires length <= total && needed <= 2 * total + 12
    ensures Grown(length, needed) <= 2 * total + 12
  {
  }

  /** `ENSURE_ALLOCATION` for a need that comes from an output of `total` characters. */
  method MakeRoom(resultbuf: array<char>, result: array<char>, length: nat, needed: Size, ghost total: nat)
    returns (ok: bool, memory: array<char>)
    requires length <= result.Length && Sized(result, resultbuf, total)
    requires needed > result.Length ==> result.Length <= total && (needed == SIZE_MAX || needed <= 2 * total + 12)
    ensures ok ==> Sized(memory, resultbuf, total) && memory.Length >= needed && length <= memory.Length
                   && memory[..length] == result[..length]
                   && (needed > result.Length ==> fresh(memory) && memory.Length > result.Length)
    ensures 2 * total + 12 < SIZE_MAX && needed < SIZE_MAX ==> ok
    ensures ok <==> Room(result.Length, needed) < SIZE_MAX
    ensures ok ==> memory.Length == Room(result.Length, needed)
    ensures memory == result || fresh(memory)
  {
    if needed > result.Length && needed < SIZE_MAX { GrownBound(result.Length, needed, total); }
    ok, memory := EnsureAllocation(result, length, needed);
  }

  /** Copies `text` to `buf` at `p`. */
  method Put(buf: array<char>, p: nat, text: string) returns (next: nat)
    requires p + |text| <= buf.Length
    modifies buf
    ensures next == p + |text| && buf[..next] == old(buf[..p]) + text
  {
    ghost var base := buf[..p];
    for i := 0 to |text|
      invariant buf[..p] == base && buf[p..p + i] == text[..i]
    {
      buf[p + i] := text[i];
    }
    next := p + |text|;
    assert buf[..next] == buf[..p] + buf[p..next];
  }

  /** Appends `text`, as the literal pieces and the `%` of a `%%` are. */
  method Append(resultbuf: array<char>, result: array<char>, length: nat, text: string, ghost total: nat)
    returns (ok: bool, memory: array<char>, length1: nat)
    requires length <= result.Length && Sized(result, resultbuf, total)
    requires length + |text| <= total && |text| < SIZE_MAX
    modifies result
    ensures memory == result || fresh(memory)
    ensures ok ==> Sized(memory, resultbuf, total)
                   && length1 == length + |text| <= memory.Length && memory[..length1] == old(result[..length]) + text
    ensures 2 * total + 12 < SIZE_MAX ==> ok
    ensures ok <==> Room(result.Length, length + |text|) < SIZE_MAX
    ensures ok ==> memory.Length == Room(result.Length, length + |text|)
  {
    length1 := length;
    var augmented := XSum(length, |text|);
    ok, memory := MakeRoom(resultbuf, result, length, augmented, total);
    if ok {
      var end := Put(memory, length, text);
      assert end == augmented;
      length1 := augmented;
    }
  }

  // ----- The scratch buffer -----

  /** Adds a flag letter behind the `%` and the letters in `done`. */
  method PutLetter(buf: array<char>, p: nat, b: bool, c: char, ghost done: string) returns (next: nat)
    requires p < buf.Length && buf[..p] == "%" + done
    modifies buf
    ensures next == p + |Letter(b, c)| && buf[..next] == "%" + (done + Letter(b, c))
  {
    next := p;
    if b {
      buf[p] := c;
      next := p + 1;
    }
  }

  method PutFlags(buf: array<char>, fl: Flags) returns (p: nat)
    requires buf.Length >= 8
    modifies buf
    ensures p == 1 + |FlagText(fl)| && buf[..p] == "%" + FlagText(fl)
  {
    hide Letter;
    buf[0] := '%';
    ghost var done := Letter(fl.group, '\'');
    p := PutLetter(buf, 1, fl.group, '\'', "");
    assert "" + done == done;
    p := PutLetter(buf, p, fl.left, '-', done);
    done := done + Letter(fl.left, '-');
    p := PutLetter(buf, p, fl.showsign, '+', done);
    done := done + Letter(fl.showsign, '+');
    p := PutLetter(buf, p, fl.space, ' ', done);
    done := done + Letter(fl.space, ' ');
    p := PutLetter(buf, p, fl.alt, '#', done);
    done := done + Letter(fl.alt, '#');
    p := PutLetter(buf, p, fl.zero, '0', done);
  }

  lemma Regroup(a: string, b: string, c: string, d: string, e: string, g: string)
    ensures a + (b + (c + (d + (e + g)))) == a + b + c + d + e + g
  {
  }

  method PutEnd(buf: array<char>, p: nat, c: char)
    requires p + 4 <= buf.Length
    modifies buf
    ensures buf[..p + 4] == old(buf[..p]) + [c] + ['%', 'n', '\0']
  {
    buf[p] := c;
    buf[p + 1] := '%';
    buf[p + 2] := 'n';
    buf[p + 3] := '\0';
  }

  /** Constructs the directive for `snprintf` with `%n` and a null character; `p` is where its conversion is. */
  method BuildDirective(buf: array<char>, f: string, d: Directive, t: ArgType) returns (p: nat)
    requires InFormat(f, d) && |Rebuild(f, d, t)| + 3 <= buf.Length && buf.Length >= 13
    modifies buf
    ensures p + 1 == |Rebuild(f, d, t)| && buf[..p + 4] == Rebuild(f, d, t) + ['%', 'n', '\0']
  {
    hide FlagText, SizeText;
    RebuildLength(f, d, t);
    p := PutFlags(buf, d.flags);
    ghost var w, q := f[d.width.start..d.width.end], f[d.precision.start..d.precision.end];
    if d.width.start != d.width.end {
      p := Put(buf, p, f[d.width.start..d.width.end]);
    }
    assert buf[..p] == "%" + FlagText(d.flags) + w;
    if d.precision.start != d.precision.end {
      p := Put(buf, p, f[d.precision.start..d.precision.end]);
    }
    assert buf[..p] == "%" + FlagText(d.flags) + w + q;
    p := Put(buf, p, SizeText(t));
    PutEnd(buf, p, d.conversion);
    Regroup("%", FlagText(d.flags), w, q, SizeText(t), [d.conversion]);
  }

  // ----- snprintf -----

  predicate AsksCount(format: string) { |format| >= 2 && format[|format| - 2..] == "%n" }

  /** The text of a directive with or without `%n` behind it. */
  function TextOf(format: string, prefixes: seq<int>, value: int, fmt: Formatter): string {
    fmt(if AsksCount(format) then format[..|format| - 2] else format, prefixes, value)
  }

  /** An `snprintf` that truncates: it writes at most `maxlen` characters, the last one null. `count` is what `%n`
      reports, and -1 when it is not understood; `retcount` may be -1 when the buffer is too small. */
  method Snprintf(result: array<char>, at: nat, maxlen: nat, format: string, prefixes: seq<int>, value: int,
                  fmt: Formatter, lib: Library) returns (retcount: int, count: int)
    requires 0 < maxlen && at + maxlen <= result.Length
    modifies result
    ensures result[..at] == old(result[..at])
    ensures var t := TextOf(format, prefixes, value, fmt);
            && count == (if AsksCount(format) && lib.countsN then |t| else -1)
            && retcount == (if lib.reportsLength || |t| < maxlen then |t| else -1)
            && (|t| < maxlen ==> result[at..at + |t|] == t && result[at + |t|] == '\0')
  {
    var t := TextOf(format, prefixes, value, fmt);
    var n := Min(|t|, maxlen - 1);
    for i := 0 to n
      invariant result[..at] == old(result[..at]) && result[at..at + i] == t[..i]
    {
      result[at + i] := t[i];
    }
    result[at + n] := '\0';
    assert result[at..at + n] == t[..n];
    count := if AsksCount(format) && lib.countsN then |t| else -1;
    retcount := if lib.reportsLength || |t| < maxlen then |t| else -1;
  }

  /** The scratch buffer holds `directive`, with or without `%n`; the conversion is at `p`. */
  ghost predicate Scratch(buf: array<char>, p: nat, directive: string)
    reads buf
  {
    && p + 4 <= buf.Length && |directive| == p + 1 && '\0' !in directive && directive[p] != 'n'
    && buf[..p + 1] == directive
    && (buf[p + 1] == '\0' || (buf[p + 1] == '%' && buf[p + 2] == 'n' && buf[p + 3] == '\0'))
  }

  lemma ScratchText(buf: array<char>, p: nat, directive: string)
    requires Scratch(buf, p, directive)
    ensures p + 4 <= buf.Length
    ensures CString(buf[..]) == if buf[p + 1] == '\0' then directive else directive + "%n"
    ensures AsksCount(CString(buf[..])) <==> buf[p + 1] != '\0'
    ensures buf[p + 1] != '\0' ==> CString(buf[..])[..|CString(buf[..])| - 2] == directive
  {
    var r := if buf[p + 1] == '\0' then directive else directive + "%n";
    if buf[p + 1] == '\0' {
      assert buf[..|r|] == r;
    } else {
      assert buf[..|r|] == buf[..p + 1] + [buf[p + 1]] + [buf[p + 2]];
    }
    assert buf[..][..|r|] == buf[..|r|];
    CStringUnique(buf[..], r);
  }

  lemma TextOfScratch(format: string, directive: string, prefixes: seq<int>, value: int, fmt: Formatter)
    requires if AsksCount(format) then format[..|format| - 2] == directive else format == directive
    ensures TextOf(format, prefixes, value, fmt) == fmt(directive, prefixes, value)
  {
  }

  /** Gives up `%n`. */
  method DropCount(buf: array<char>, p: nat, ghost directive: string)
    requires Scratch(buf, p, directive)
    modifies buf
    ensures Scratch(buf, p, directive) && buf[p + 1] == '\0'
  {
    buf[p + 1] := '\0';
  }

  /** One call of `snprintf` and what is made of its two reports. The length is known, or `%n` is given up,
      or the text did not fit and its length remains unknown. */
  method Attempt(memory: array<char>, length: nat, buf: array<char>, p: nat, prefixes: seq<int>, value: int,
                 fmt: Formatter, lib: Library, ghost directive: string) returns (count: int, changed: bool)
    requires length < memory.Length && Scratch(buf, p, directive) && buf != memory
    requires p + 1 < buf.Length && (lib.countsN ==> buf[p + 1] != '\0')
    modifies memory, buf
    ensures Scratch(buf, p, directive) && memory[..length] == old(memory[..length])
    ensures var t, maxlen := fmt(directive, prefixes, value), memory.Length - length;
            && (changed ==> count < 0 && old(buf[p + 1]) != '\0' && buf[p + 1] == '\0')
            && (!changed ==> buf[p + 1] == old(buf[p + 1]))
            && (count >= 0 ==> count == |t|)
            && (0 <= count < maxlen ==> memory[..length + count] == old(memory[..length]) + t)
            && (count < 0 && !changed ==> |t| >= maxlen)
            && (!changed && |t| >= maxlen ==> (count >= 0 <==> lib.countsN || lib.reportsLength))
    ensures lib.countsN ==> buf[p + 1] != '\0'
  {
    hide TextOf, CString, AsksCount, Scratch;
    var maxlen := memory.Length - length;
    ScratchText(buf, p, directive);
    var format := CString(buf[..]);
    TextOfScratch(format, directive, prefixes, value, fmt);
    changed := false;
    var retcount;
    retcount, count := Snprintf(memory, length, maxlen, format, prefixes, value, fmt, lib);
    if count >= 0 {
      assert count < maxlen ==> memory[length + count] == '\0';
      if retcount > count { count := retcount; }
    } else if buf[p + 1] != '\0' {
      DropCount(buf, p, directive);
      changed := true;
    } else if retcount >= 0 {
      count := retcount;
    }
    assert count >= 0 && count < maxlen ==>
             memory[..length + count] == memory[..length] + memory[length..length + count];
  }

  lemma MoreNeeded(size: Size, length: nat, count: int, t: nat, total: nat)
    requires length < size < SIZE_MAX && size <= length + t <= total && (count < 0 || count == t <= INT_MAX)
    ensures var needed := if count < 0 then XSum(XTimes(size, 2), 12) else XMax(XSum(length, count), XTimes(size, 2));
            && needed == Min(MoreNeed(size, length, t, count >= 0), SIZE_MAX) && size < needed
            && (needed == SIZE_MAX || needed <= 2 * total + 12) && (2 * total + 12 < SIZE_MAX ==> needed < SIZE_MAX)
            && Room(size, needed) == Room(size, MoreNeed(size, length, t, count >= 0))
  {
    hide Grown;
  }

  /** Makes room after a text of length `t` did not fit, whose length may be unknown. Doubling is what makes the
      next attempt succeed when the reported length is exactly the room there was. */
  method MakeMoreRoom(resultbuf: array<char>, result: array<char>, length: nat, count: int, ghost t: nat,
                      ghost total: nat)
    returns (ok: bool, memory: array<char>)
    requires length < result.Length <= length + t <= total && Sized(result, resultbuf, total)
    requires count < 0 || count == t <= INT_MAX
    ensures ok ==> Sized(memory, resultbuf, total) && memory.Length > result.Length
                   && memory[..length] == result[..length]
    ensures memory == result || fresh(memory)
    ensures 2 * total + 12 < SIZE_MAX ==> ok
    ensures var size := Room(result.Length, MoreNeed(result.Length, length, t, count >= 0));
            (ok <==> size < SIZE_MAX) && (ok ==> memory.Length == size)
  {
    hide Room, MoreNeed, Sized;
    SizedBelow(result, resultbuf, total);
    var needed := if count < 0 then XSum(XTimes(result.Length, 2), 12)
                  else XMax(XSum(length, count), XTimes(result.Length, 2));
    MoreNeeded(result.Length, length, count, t, total);
    ok, memory := MakeRoom(resultbuf, result, length, needed, total);
  }

  /** One turn of the loop: the text fits, or another attempt is made, without `%n` or with a larger buffer. */
  method Turn(resultbuf: array<char>, memory: array<char>, length: nat, buf: array<char>, p: nat, prefixes: seq<int>,
              value: int, fmt: Formatter, lib: Library, ghost directive: string, ghost total: nat)
    returns (ok: bool, fits: bool, memory1: array<char>, length1: nat)
    requires length < memory.Length < SIZE_MAX && Sized(memory, resultbuf, total)
    requires length + |fmt(directive, prefixes, value)| <= total
    requires buf != memory && Scratch(buf, p, directive) && p + 1 < buf.Length && (lib.countsN ==> buf[p + 1] != '\0')
    modifies memory, buf
    ensures memory1 == memory || fresh(memory1)
    ensures Scratch(buf, p, directive) && (lib.countsN ==> buf[p + 1] != '\0')
    ensures ok ==> Sized(memory1, resultbuf, total) && length < memory1.Length < SIZE_MAX
                   && memory1[..length] == old(memory[..length])
    ensures ok && fits ==> memory1 == memory && length1 == length + |fmt(directive, prefixes, value)| < memory.Length
                           && memory1[..length1] == old(memory[..length]) + fmt(directive, prefixes, value)
    ensures ok && !fits ==> if old(buf[p + 1]) == buf[p + 1] then memory1.Length > memory.Length
                            else memory1 == memory && buf[p + 1] == '\0'
    ensures var t, known := |fmt(directive, prefixes, value)|, LengthKnown(lib);
            FitSize(memory.Length, length, t, known)
            == if !ok then SIZE_MAX else if fits then memory.Length else FitSize(memory1.Length, length, t, known)
    ensures 2 * total + 12 < SIZE_MAX ==> ok
  {
    hide Scratch, Room, MoreNeed, FitSize, Sized;
    ghost var t, known := |fmt(directive, prefixes, value)|, LengthKnown(lib);
    FitStep(memory.Length, length, t, known);
    FitFails(length, t, known);
    ok, fits, memory1, length1 := true, false, memory, length;
    var maxlen := memory.Length - length;
    var count, changed := Attempt(memory, length, buf, p, prefixes, value, fmt, lib, directive);
    if changed { return; }
    if count < 0 || count >= maxlen {
      ok, memory1 := MakeMoreRoom(resultbuf, memory, length, count, t, total);
      if ok { SizedBelow(memory1, resultbuf, total); }
      return;
    }
    fits, length1 := true, length + count;
    assert memory[..length1][..length] == memory[..length];
  }

  /** Makes sure that a null character fits behind the first `length` characters, and writes it. */
  method Reserve(resultbuf: array<char>, result: array<char>, length: nat, ghost total: nat)
    returns (ok: bool, memory: array<char>)
    requires length <= result.Length && Sized(result, resultbuf, total) && length <= total
    modifies result
    ensures memory == result || fresh(memory)
    ensures ok ==> Sized(memory, resultbuf, total) && length < memory.Length < SIZE_MAX
                   && memory[..length] == old(result[..length])
    ensures 2 * total + 12 < SIZE_MAX ==> ok
    ensures ok <==> Room(result.Length, length + 1) < SIZE_MAX
    ensures ok ==> memory.Length == Room(result.Length, length + 1)
  {
    hide Room;
    ghost var base := result[..length];
    ok, memory := MakeRoom(resultbuf, result, length, XSum(length, 1), total);
    if ok {
      memory[length] := '\0';
      assert memory[..length] == base;
    }
  }

  /** Formats a value behind the first `length` characters, trying again with a larger buffer until it fits. */
  method FormatValue(resultbuf: array<char>, result: array<char>, length: nat, buf: array<char>, p: nat,
                     prefixes: seq<int>, value: int, fmt: Formatter, lib: Library,
                     ghost directive: string, ghost total: nat)
    returns (ok: bool, memory: array<char>, length1: nat)
    requires length <= result.Length && Sized(result, resultbuf, total) && Scratch(buf, p, directive)
    requires length + |fmt(directive, prefixes, value)| <= total
    requires buf != result && buf != resultbuf && p + 1 < buf.Length && buf[p + 1] != '\0'
    modifies result, buf
    ensures memory == result || fresh(memory)
    ensures ok ==> Sized(memory, resultbuf, total)
                   && length1 == length + |fmt(directive, prefixes, value)| <= memory.Length
                   && memory[..length1] == old(result[..length]) + fmt(directive, prefixes, value)
    ensures 2 * total + 12 < SIZE_MAX ==> ok
    ensures var t := |fmt(directive, prefixes, value)|;
            var size := FitSize(Room(result.Length, length + 1), length, t, LengthKnown(lib));
            (ok <==> size < SIZE_MAX) && (ok ==> memory.Length == size)
  {
    hide Scratch, Room, MoreNeed, FitSize, Sized, LengthKnown;
    ghost var base := result[..length];
    ghost var t, known := |fmt(directive, prefixes, value)|, LengthKnown(lib);
    FitFails(length, t, known);
    length1 := length;
    ok, memory := Reserve(resultbuf, result, length, total);
    if !ok { return; }
    ghost var size := FitSize(memory.Length, length, t, known);
    var fits := false;
    while !fits
      invariant memory == result || fresh(memory)
      invariant Sized(memory, resultbuf, total) && length < memory.Length < SIZE_MAX
      invariant buf != memory && Scratch(buf, p, directive) && (lib.countsN ==> buf[p + 1] != '\0')
      invariant fits ==> size == memory.Length && length1 == length + t <= memory.Length
                         && memory[..length1] == base + fmt(directive, prefixes, value)
      invariant !fits ==> size == FitSize(memory.Length, length, t, known) && memory[..length] == base
      decreases !fits, if buf[p + 1] != '\0' then 1 else 0, SIZE_MAX - memory.Length
    {
      ok, fits, memory, length1 := Turn(resultbuf, memory, length, buf, p, prefixes, value, fmt, lib, directive, total);
      if !ok { return; }
    }
  }

  lemma FitStep(size: Size, length: nat, t: nat, known: bool)
    requires length < size < SIZE_MAX
    ensures FitSize(size, length, t, known)
            == if length + t < size then size
               else FitSize(Room(size, MoreNeed(size, length, t, known)), length, t, known)
  {
    hide Room, MoreNeed;
  }

  lemma FitFails(length: nat, t: nat, known: bool)
    ensures FitSize(SIZE_MAX, length, t, known) == SIZE_MAX
  {
  }

  // ----- The whole call -----

  /** `printf_fetchargs` fails on a slot that no directive has given a type. */
  method FetchArgs(arg: array<ArgType>, count: nat) returns (ok: bool)
    requires count <= arg.Length
    ensures ok <==> TypeNone !in arg[..count]
  {
    for i := 0 to count
      invariant TypeNone !in arg[..i]
    {
      if arg[i] == TypeNone {
        assert arg[..count][i] == TypeNone;
        return false;
      }
    }
    ok := true;
  }

  lemma {:induction false} MaxWithin(f: string, dirs: seq<Directive>)
    requires forall i :: 0 <= i < |dirs| ==> InFormat(f, dirs[i])
    ensures 0 <= MaxWidth(dirs) <= |f| && 0 <= MaxPrecision(dirs) <= |f|
  {
    if dirs != [] {
      var t := dirs[..|dirs| - 1];
      assert forall i :: 0 <= i < |t| ==> t[i] == dirs[i];
      MaxWithin(f, t);
    }
  }

  /** The rebuilt directive has no null character and does not end in `n`. */
  lemma RebuildPlain(f: string, d: Directive, t: ArgType)
    requires InFormat(f, d) && '\0' !in f && d.conversion != '\0' && d.conversion != 'n'
    ensures var r := Rebuild(f, d, t); '\0' !in r && r[|r| - 1] != 'n'
  {
    hide FlagText, SizeText;
    var w, q := f[d.width.start..d.width.end], f[d.precision.start..d.precision.end];
    if '\0' in FlagText(d.flags) { FlagIn(d.flags, '\0'); }
    SizePlain(t);
    NotIn(SizeText(t), [d.conversion]);
    NotIn(q, SizeText(t) + [d.conversion]);
    NotIn(w, q + (SizeText(t) + [d.conversion]));
    NotIn(FlagText(d.flags), w + (q + (SizeText(t) + [d.conversion])));
    NotIn("%", FlagText(d.flags) + (w + (q + (SizeText(t) + [d.conversion]))));
  }

  lemma SizePlain(t: ArgType)
    ensures '\0' !in SizeText(t)
  {
  }

  lemma NotIn(a: string, b: string)
    requires '\0' !in a && '\0' !in b && b != ""
    ensures '\0' !in a + b && (a + b)[|a + b| - 1] == b[|b| - 1]
  {
  }

  /** Executes a directive other than `%%` and `%n`. */
  method Convert(resultbuf: array<char>, result: array<char>, length: nat, buf: array<char>, f: string, d: Directive,
                 args: array<ArgType>, ghost types: seq<ArgType>, values: seq<int>, fmt: Formatter, lib: Library,
                 ghost total: nat)
    returns (ok: bool, memory: array<char>, length1: nat)
    requires Usable(f, d, types) && |values| == |types| <= args.Length && args[..|types|] == types
    requires d.conversion != '%' && d.conversion != 'n' && '\0' !in f
    requires |Rebuild(f, d, types[d.index])| + 3 <= buf.Length && buf.Length >= 13
    requires length <= result.Length && Sized(result, resultbuf, total)
    requires length + |Output(f, d, types, values, fmt)| <= total
    requires buf != result && buf != resultbuf
    modifies result, buf
    ensures memory == result || fresh(memory)
    ensures ok ==> Sized(memory, resultbuf, total)
                   && length1 == length + |Output(f, d, types, values, fmt)| <= memory.Length
                   && memory[..length1] == old(result[..length]) + Output(f, d, types, values, fmt)
    ensures 2 * total + 12 < SIZE_MAX ==> ok
    ensures var size := DirectiveSize(result.Length, length, d.conversion, |Output(f, d, types, values, fmt)|, lib);
            (ok <==> size < SIZE_MAX) && (ok ==> memory.Length == size)
  {
    hide Rebuild, InFormat, Sized, IsCount, FitSize, Room;
    var t := args[d.index];
    ghost var directive := Rebuild(f, d, t);
    RebuildPlain(f, d, t);
    var p := BuildDirective(buf, f, d, t);
    ScratchBuilt(buf, p, directive);
    var prefixes := [];
    if d.width.index != ARG_NONE {
      assert args[d.width.index] == TypeInt;
      prefixes := prefixes + [values[d.width.index]];
    }
    if d.precision.index != ARG_NONE {
      assert args[d.precision.index] == TypeInt;
      prefixes := prefixes + [values[d.precision.index]];
    }
    assert prefixes == Prefixes(d, values);
    ok, memory, length1 := FormatValue(resultbuf, result, length, buf, p, prefixes, values[d.index], fmt, lib,
                                       directive, total);
  }

  lemma ScratchBuilt(buf: array<char>, p: nat, directive: string)
    requires p + 4 <= buf.Length && |directive| == p + 1 && '\0' !in directive && directive[p] != 'n'
    requires buf[..p + 4] == directive + ['%', 'n', '\0']
    ensures Scratch(buf, p, directive) && buf[p + 1] == '%'
  {
    var r := buf[..p + 4];
    assert buf[..p + 1] == r[..p + 1] && buf[p + 1] == r[p + 1] && buf[p + 2] == r[p + 2] && buf[p + 3] == r[p + 3];
  }

  /** The first `i` directives are done. */
  ghost predicate Progress(f: string, r: Format, values: seq<int>, fmt: Formatter, i: nat, resultbuf: array<char>,
                           result: array<char>, length: nat, counts: seq<(Size, nat)>, total: nat)
    requires Printable(f, r) && |values| == |r.args| && i <= |r.dirs|
    reads result
  {
    && Sized(result, resultbuf, total)
    && length == |Rendered(f, r, values, fmt, i)| <= result.Length
    && result[..length] == Rendered(f, r, values, fmt, i)
    && counts == Counts(f, r, values, fmt, i)
  }

  /** The same, with the literal behind them. */
  ghost predicate LiteralDone(f: string, r: Format, values: seq<int>, fmt: Formatter, i: nat, resultbuf: array<char>,
                              result: array<char>, length: nat, counts: seq<(Size, nat)>, total: nat)
    requires Printable(f, r) && |values| == |r.args| && i <= |r.dirs|
    reads result
  {
    var before := Rendered(f, r, values, fmt, i) + Literal(f, r, i);
    && Sized(result, resultbuf, total)
    && length == |before| <= result.Length && result[..length] == before
    && counts == Counts(f, r, values, fmt, i)
  }

  method CopyLiteral(resultbuf: array<char>, result: array<char>, length: nat, f: string, cp: nat, start: nat,
                     ghost r: Format, ghost values: seq<int>, ghost fmt: Formatter, ghost i: nat,
                     ghost counts: seq<(Size, nat)>, ghost total: nat)
    returns (ok: bool, memory: array<char>, length1: nat)
    requires Printable(f, r) && |values| == |r.args| && i <= |r.dirs| && |f| < SIZE_MAX
    requires cp == GapStart(r.dirs, i) && start == GapEnd(r.dirs, i, |f|) && total == |Render(f, r, values, fmt)|
    requires Progress(f, r, values, fmt, i, resultbuf, result, length, counts, total)
    modifies result
    ensures memory == result || fresh(memory)
    ensures ok ==> LiteralDone(f, r, values, fmt, i, resultbuf, memory, length1, counts, total)
    ensures 2 * total + 12 < SIZE_MAX ==> ok
    ensures var size := LiteralSize(result.Length, length, |Literal(f, r, i)|);
            (ok <==> size < SIZE_MAX) && (ok ==> memory.Length == size)
  {
    hide Room, Printable, Rendered, Literal, Counts, Sized, GapStart, GapEnd;
    NextLiteral(f, r, values, fmt, i);
    SizedBelow(result, resultbuf, total);
    ok, memory, length1 := true, result, length;
    if cp != start {
      ok, memory, length1 := Append(resultbuf, result, length, f[cp..start], total);
    }
  }

  method Execute(resultbuf: array<char>, result: array<char>, length: nat, counts: seq<(Size, nat)>, buf: array<char>,
                 f: string, d: Directive, arg: array<ArgType>, values: seq<int>, fmt: Formatter, lib: Library,
                 ghost r: Format, ghost i: nat, ghost total: nat)
    returns (ok: bool, memory: array<char>, length1: nat, counts1: seq<(Size, nat)>)
    requires Printable(f, r) && |values| == |r.args| <= arg.Length && arg[..|r.args|] == r.args
    requires i < |r.dirs| && d == r.dirs[i] && '\0' !in f && total == |Render(f, r, values, fmt)|
    requires buf.Length >= 13 && buf.Length == Needed(r.dirs) && buf != result && buf != resultbuf
    requires LiteralDone(f, r, values, fmt, i, resultbuf, result, length, counts, total)
    modifies result, buf
    ensures memory == result || fresh(memory)
    ensures ok ==> Progress(f, r, values, fmt, i + 1, resultbuf, memory, length1, counts1, total)
    ensures 2 * total + 12 < SIZE_MAX ==> ok
    ensures Usable(f, d, r.args)
    ensures var size := DirectiveSize(result.Length, length, d.conversion, |Output(f, d, r.args, values, fmt)|, lib);
            (ok <==> size < SIZE_MAX) && (ok ==> memory.Length == size)
  {
    hide FitSize, Room, Printable, Rendered, Literal, Counts, Sized, Usable, Rebuild, InFormat, Needed, Output;
    NextDirective(f, r, values, fmt, i);
    SizedBelow(result, resultbuf, total);
    ok, memory, length1, counts1 := true, result, length, counts;
    if d.conversion == '%' {
      ok, memory, length1 := Append(resultbuf, result, length, "%", total);
    } else if d.conversion == 'n' {
      counts1 := counts + [(d.index, length)];
      assert result[..length] + "" == result[..length];
    } else {
      UsableIndex(f, d, r.args);
      ScratchHolds(f, r, i, r.args[d.index]);
      ok, memory, length1 := Convert(resultbuf, result, length, buf, f, d, arg, r.args, values, fmt, lib, total);
    }
  }

  lemma SizedIsTotal(f: string, r: Format, values: seq<int>, fmt: Formatter, resultbuf: array<char>,
                     result: array<char>, length: nat, counts: seq<(Size, nat)>)
    requires Printable(f, r) && |values| == |r.args|
    requires LiteralDone(f, r, values, fmt, |r.dirs|, resultbuf, result, length, counts, |Render(f, r, values, fmt)|)
    ensures counts == Counts(f, r, values, fmt, |r.dirs|)
    ensures length == |Render(f, r, values, fmt)| <= result.Length && result[..length] == Render(f, r, values, fmt)
    ensures Sized(result, resultbuf, length)
  {
  }

  /** The final null character, and the surplus memory given back. */
  method Finish(resultbuf: array<char>, result: array<char>, length: nat) returns (ok: bool, memory: array<char>)
    requires length <= result.Length && Sized(result, resultbuf, length)
    modifies result
    ensures ok ==> length < memory.Length && memory[..length] == old(result[..length]) && memory[length] == '\0'
    ensures memory == result || fresh(memory)
    ensures ok ==> (memory == resultbuf <==> resultbuf.Length > length)
    ensures ok && memory != resultbuf ==> memory.Length == length + 1
    ensures ok ==> memory.Length < SIZE_MAX
    ensures 2 * length + 12 < SIZE_MAX ==> ok
    ensures ok <==> Room(result.Length, length + 1) < SIZE_MAX
  {
    hide Room;
    ghost var base := result[..length];
    ok, memory := MakeRoom(resultbuf, result, length, XSum(length, 1), length);
    if !ok { return; }
    memory[length] := '\0';
    assert memory[..length] == base;
    if memory != resultbuf && length + 1 < memory.Length {
      memory := Shrink(memory, length + 1);
    }
  }

  /** `realloc` to a smaller size. */
  method Shrink(memory: array<char>, size: nat) returns (smaller: array<char>)
    requires 0 < size <= memory.Length
    ensures fresh(smaller) && smaller.Length == size
    ensures smaller[..size - 1] == memory[..size - 1] && smaller[size - 1] == memory[size - 1]
  {
    smaller := new char[size];
    for i := 0 to size
      invariant forall k :: 0 <= k < i ==> smaller[k] == memory[k]
    {
      smaller[i] := memory[i];
    }
  }

  datatype Outcome = Invalid | NoMemory | Done

  /** What a call delivers: the output and its length in the caller's buffer when that has room for it and for a
      null character, and otherwise in a buffer of exactly this size; and the lengths for `%n`. */
  ghost predicate Delivered(f: string, r: Format, values: seq<int>, fmt: Formatter, resultbuf: array<char>,
                            result: array<char>, length: nat, counts: seq<(Size, nat)>)
    requires Printable(f, r) && |values| == |r.args|
    reads result
  {
    && length == |Render(f, r, values, fmt)| < result.Length
    && result[..length] == Render(f, r, values, fmt) && result[length] == '\0'
    && counts == Counts(f, r, values, fmt, |r.dirs|)
    && (result == resultbuf <==> resultbuf.Length > length)
    && (result != resultbuf ==> result.Length == length + 1)
  }

  /** The loop over literal texts and directives. */
  method Produce(resultbuf: array<char>, buf: array<char>, f: string, dir: array<Directive>, count: nat,
                 arg: array<ArgType>, values: seq<int>, fmt: Formatter, lib: Library, ghost r: Format)
    returns (ok: bool, result: array<char>, length: nat, counts: seq<(Size, nat)>)
    requires Printable(f, r) && |values| == |r.args| <= arg.Length && arg[..|r.args|] == r.args
    requires |r.dirs| == count < dir.Length && dir[..count] == r.dirs && dir[count].start == |f|
    requires '\0' !in f && |f| < SIZE_MAX && resultbuf.Length < SIZE_MAX
    requires buf.Length >= 13 && buf.Length == Needed(r.dirs) && buf != resultbuf
    modifies resultbuf, buf
    ensures result == resultbuf || fresh(result)
    ensures ok ==> LiteralDone(f, r, values, fmt, count, resultbuf, result, length, counts, |Render(f, r, values, fmt)|)
    ensures var size := SizeBehind(f, r, values, fmt, lib, resultbuf.Length, count);
            (ok ==> result.Length == size) && (!ok ==> FinalSize(f, r, values, fmt, lib, resultbuf.Length) == SIZE_MAX)
    ensures 2 * |Render(f, r, values, fmt)| + 12 < SIZE_MAX ==> ok
  {
    hide Printable, Render, Counts, Sized, Progress, LiteralDone, InFormat, Usable, LiteralSize, DirectiveSize,
      SizeBefore, SizeBehind, FinalSize, Room, Literal, Output, Needed;
    result, length, counts := resultbuf, 0, [];
    ghost var total, space := |Render(f, r, values, fmt)|, resultbuf.Length;
    var i, cp := 0, 0;
    Begin(f, r, values, fmt, lib, resultbuf, total);
    while true
      invariant 0 <= i <= count && cp == GapStart(r.dirs, i)
      invariant (result == resultbuf || fresh(result)) && buf != result
      invariant Progress(f, r, values, fmt, i, resultbuf, result, length, counts, total)
      invariant result.Length == SizeBefore(f, r, values, fmt, lib, space, i)
      invariant dir[..count] == r.dirs && dir[count].start == |f| && arg[..|r.args|] == r.args
      decreases count - i
    {
      assert i < count ==> dir[..count][i] == dir[i];
      FailureStays(f, r, values, fmt, lib, space, i);
      BehindNext(f, r, values, fmt, lib, space, i, resultbuf, result, length, counts, total);
      ok, result, length := CopyLiteral(resultbuf, result, length, f, cp, dir[i].start, r, values, fmt, i, counts,
                                        total);
      if !ok || i == count { return; }
      FailureStays(f, r, values, fmt, lib, space, i + 1);
      BeforeNext(f, r, values, fmt, lib, space, i, resultbuf, result, length, counts, total);
      ok, result, length, counts := Execute(resultbuf, result, length, counts, buf, f, dir[i], arg, values, fmt, lib,
                                            r, i, total);
      if !ok { return; }
      cp := dir[i].end;
      i := i + 1;
    }
  }

  /** `vasnprintf`; a missing buffer is one of length 0. */
  method Vasnprintf(resultbuf: array<char>, f: string, values: seq<int>, fmt: Formatter, lib: Library)
    returns (outcome: Outcome, result: array<char>, length: nat, counts: seq<(Size, nat)>)
    requires '\0' !in f && |f| < SIZE_MAX && resultbuf.Length < SIZE_MAX
    requires Parse(f).Some? ==> |values| == |Parse(f).value.args|
    modifies resultbuf
    ensures outcome.Invalid? <==> Parse(f).None? || TypeNone in Parse(f).value.args
    ensures Parse(f).Some? ==> Printable(f, Parse(f).value)
    ensures outcome.Done? ==> Delivered(f, Parse(f).value, values, fmt, resultbuf, result, length, counts)
    ensures result == resultbuf || fresh(result)
    ensures !outcome.Invalid? ==> var r := Parse(f).value;
              outcome.NoMemory? <==>
              Needed(r.dirs) >= SIZE_MAX || FinalSize(f, r, values, fmt, lib, resultbuf.Length) == SIZE_MAX
    ensures outcome.NoMemory? ==> var r := Parse(f).value;
              2 * |Render(f, r, values, fmt)| + 12 >= SIZE_MAX || Needed(r.dirs) >= SIZE_MAX
    ensures outcome.Done? ==> var r := Parse(f).value;
              |Render(f, r, values, fmt)| + 1 < SIZE_MAX && Needed(r.dirs) < SIZE_MAX
  {
    hide Parse, Printable, Render, Counts, Sized, MaxWidth, MaxPrecision, LiteralDone, InFormat, SizeBehind, FinalSize,
      Room;
    outcome, result, length, counts := Invalid, resultbuf, 0, [];
    var ok, dir, count, arg, argCount, maxWidth, maxPrecision := ParseFormat(f);
    if !ok { return; }
    ghost var r := Parse(f).value;
    AcceptedPrintable(f);
    ok := FetchArgs(arg, argCount);
    if !ok { return; }
    outcome := NoMemory;
    UsableFields(f, r);
    MaxWithin(f, r.dirs);
    var needed := XSum4(7, maxWidth, maxPrecision, 6);
    if Overflow(XTimes(needed, 1)) { return; }
    var buf := new char[needed];
    ok, result, length, counts := Produce(resultbuf, buf, f, dir, count, arg, values, fmt, lib, r);
    if !ok { return; }
    SizedIsTotal(f, r, values, fmt, resultbuf, result, length, counts);
    FinalIs(f, r, values, fmt, lib, resultbuf.Length);
    ok, result := Finish(resultbuf, result, length);
    if ok { outcome := Done; }
  }

  lemma UsableIndex(f: string, d: Directive, args: seq<ArgType>)
    requires Usable(f, d, args) && d.conversion != '%'
    ensures d.index < |args|
  {
  }

  lemma UsableFields(f: string, r: Format)
    requires Printable(f, r)
    ensures forall i :: 0 <= i < |r.dirs| ==> InFormat(f, r.dirs[i])
  {
    forall i | 0 <= i < |r.dirs| ensures InFormat(f, r.dirs[i]) { assert Usable(f, r.dirs[i], r.args); }
  }

  lemma Begin(f: string, r: Format, values: seq<int>, fmt: Formatter, lib: Library, resultbuf: array<char>, total: nat)
    requires Printable(f, r) && |values| == |r.args| && resultbuf.Length < SIZE_MAX
    ensures Progress(f, r, values, fmt, 0, resultbuf, resultbuf, 0, [], total)
    ensures SizeBefore(f, r, values, fmt, lib, resultbuf.Length, 0) == resultbuf.Length
  {
  }

  lemma BehindNext(f: string, r: Format, values: seq<int>, fmt: Formatter, lib: Library, space: Size, i: nat,
                   resultbuf: array<char>, result: array<char>, length: nat, counts: seq<(Size, nat)>, total: nat)
    requires Printable(f, r) && |values| == |r.args| && i <= |r.dirs|
    requires Progress(f, r, values, fmt, i, resultbuf, result, length, counts, total)
    ensures SizeBehind(f, r, values, fmt, lib, space, i)
            == LiteralSize(SizeBefore(f, r, values, fmt, lib, space, i), length, |Literal(f, r, i)|)
  {
    hide Printable, Sized, Literal, LiteralSize, SizeBefore, Rendered, Counts;
  }

  lemma BeforeNext(f: string, r: Format, values: seq<int>, fmt: Formatter, lib: Library, space: Size, i: nat,
                   resultbuf: array<char>, result: array<char>, length: nat, counts: seq<(Size, nat)>, total: nat)
    requires Printable(f, r) && |values| == |r.args| && i < |r.dirs|
    requires LiteralDone(f, r, values, fmt, i, resultbuf, result, length, counts, total)
    ensures Usable(f, r.dirs[i], r.args)
    ensures SizeBefore(f, r, values, fmt, lib, space, i + 1)
            == DirectiveSize(SizeBehind(f, r, values, fmt, lib, space, i), length, r.dirs[i].conversion,
                             |Output(f, r.dirs[i], r.args, values, fmt)|, lib)
  {
    DirectiveUsable(f, r, i);
    hide Printable, Sized, Literal, SizeBehind, DirectiveSize, Rendered, Counts, Usable, Output;
  }

  lemma FinalIs(f: string, r: Format, values: seq<int>, fmt: Formatter, lib: Library, space: Size)
    requires Printable(f, r) && |values| == |r.args|
    ensures FinalSize(f, r, values, fmt, lib, space)
            == Room(SizeBehind(f, r, values, fmt, lib, space, |r.dirs|), |Render(f, r, values, fmt)| + 1)
  {
  }

  /** The literal before directive `i`, or the last one. */
  lemma NextLiteral(f: string, r: Format, values: seq<int>, fmt: Formatter, i: nat)
    requires Printable(f, r) && |values| == |r.args| && i <= |r.dirs|
    ensures 0 <= GapStart(r.dirs, i) <= GapEnd(r.dirs, i, |f|) <= |f|
    ensures Literal(f, r, i) == f[GapStart(r.dirs, i)..GapEnd(r.dirs, i, |f|)]
    ensures |Rendered(f, r, values, fmt, i)| + |Literal(f, r, i)| <= |Render(f, r, values, fmt)|
    ensures i == |r.dirs| ==> Render(f, r, values, fmt) == Rendered(f, r, values, fmt, i) + Literal(f, r, i)
  {
    hide Usable, Rendered, Output;
    assert Gap(f, GapStart(r.dirs, i), GapEnd(r.dirs, i, |f|));
    if i < |r.dirs| {
      assert Usable(f, r.dirs[i], r.args);
      RenderedWithin(f, r, values, fmt, i);
    }
  }

  /** What directive `i` adds. */
  lemma NextDirective(f: string, r: Format, values: seq<int>, fmt: Formatter, i: nat)
    requires Printable(f, r) && |values| == |r.args| && i < |r.dirs|
    ensures var d, before := r.dirs[i], Rendered(f, r, values, fmt, i) + Literal(f, r, i);
            && Usable(f, d, r.args) && d.start + 1 < d.end
            && |before| + |Output(f, d, r.args, values, fmt)| <= |Render(f, r, values, fmt)|
            && Rendered(f, r, values, fmt, i + 1) == before + Output(f, d, r.args, values, fmt)
            && Counts(f, r, values, fmt, i + 1) == Counts(f, r, values, fmt, i) +
               (if d.conversion == 'n' then [(d.index, |before|)] else [])
            && (d.conversion == '%' ==> Output(f, d, r.args, values, fmt) == "%")
            && (d.conversion == 'n' ==> Output(f, d, r.args, values, fmt) == "")
  {
    hide Usable, Literal, Printable, Output, Rendered, Counts, Render;
    DirectiveUsable(f, r, i);
    RenderedWithin(f, r, values, fmt, i);
    RenderedNext(f, r, values, fmt, i);
    CountsNext(f, r, values, fmt, i);
    if r.dirs[i].conversion == '%' || r.dirs[i].conversion == 'n' { NoFormatting(f, r.dirs[i], r.args, values, fmt); }
  }

  lemma NoFormatting(f: string, d: Directive, args: seq<ArgType>, values: seq<int>, fmt: Formatter)
    requires Usable(f, d, args) && |values| == |args| && (d.conversion == '%' || d.conversion == 'n')
    ensures Output(f, d, args, values, fmt) == if d.conversion == '%' then "%" else ""
  {
  }

  lemma RenderedNext(f: string, r: Format, values: seq<int>, fmt: Formatter, i: nat)
    requires Printable(f, r) && |values| == |r.args| && i < |r.dirs|
    ensures Usable(f, r.dirs[i], r.args)
    ensures Rendered(f, r, values, fmt, i + 1) ==
            Rendered(f, r, values, fmt, i) + Literal(f, r, i) + Output(f, r.dirs[i], r.args, values, fmt)
  {
    hide Literal, Output, Usable;
    DirectiveUsable(f, r, i);
  }

  lemma CountsNext(f: string, r: Format, values: seq<int>, fmt: Formatter, i: nat)
    requires Printable(f, r) && |values| == |r.args| && i < |r.dirs|
    ensures Counts(f, r, values, fmt, i + 1) == Counts(f, r, values, fmt, i) +
              (if r.dirs[i].conversion == 'n'
               then [(r.dirs[i].index, |Rendered(f, r, values, fmt, i)| + |Literal(f, r, i)|)] else [])
  {
    hide Literal, Rendered, Printable;
  }

  lemma DirectiveUsable(f: string, r: Format, i: nat)
    requires Printable(f, r) && i < |r.dirs|
    ensures Usable(f, r.dirs[i], r.args) && r.dirs[i].start + 1 < r.dirs[i].end
  {
    hide Usable;
  }

  /** The scratch buffer has room for every directive. */
  lemma ScratchHolds(f: string, r: Format, i: nat, t: ArgType)
    requires Printable(f, r) && i < |r.dirs|
    ensures InFormat(f, r.dirs[i]) && |Rebuild(f, r.dirs[i], t)| + 3 <= Needed(r.dirs)
  {
    assert Usable(f, r.dirs[i], r.args);
    ScratchFits(f, r.dirs, i, t);
  }
}
