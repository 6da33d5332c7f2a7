/** The directive that `vasnprintf` rebuilds for `snprintf`, with its position removed. */
module PrintfRebuild {
  import opened Options
  import opened XSize
  import opened PrintfParse
  import opened PrintfGrammar
  import opened PrintfFormat

  function Letter(b: bool, c: char): (r: string)
    ensures |r| <= 1
  {
    if b then [c] else ""
  }

  function FlagText(fl: Flags): string {
    Letter(fl.group, '\'') + Letter(fl.left, '-') + Letter(fl.showsign, '+') + Letter(fl.space, ' ')
    + Letter(fl.alt, '#')
    + Letter(fl.zero, '0')
  }

  function SizeText(t: ArgType): string {
    match t
    case TypeLongLong | TypeULongLong => "ll"
    case TypeLong | TypeULong | TypeWideChar | TypeWideString => "l"
    case TypeLongDouble => "L"
    case _ => ""
  }

  predicate InFormat(f: string, d: Directive) {
    d.width.start <= d.width.end <= |f| && d.precision.start <= d.precision.end <= |f|
  }

  function Rebuild(f: string, d: Directive, t: ArgType): string
    requires InFormat(f, d)
  {
    "%" + (FlagText(d.flags) + (f[d.width.start..d.width.end] + (f[d.precision.start..d.precision.end]
                                                                  + (SizeText(t) + [d.conversion]))))
  }

  // ----- The scratch buffer -----

  lemma {:induction false} WithinMax(dirs: seq<Directive>, i: nat)
    requires i < |dirs|
    ensures FieldLength(dirs[i].width) <= MaxWidth(dirs) && FieldLength(dirs[i].precision) <= MaxPrecision(dirs)
  {
    if i < |dirs| - 1 { WithinMax(dirs[..|dirs| - 1], i); }
  }

  /** The size of the scratch buffer. */
  function Needed(dirs: seq<Directive>): int { 7 + MaxWidth(dirs) + MaxPrecision(dirs) + 6 }

  lemma RebuildLength(f: string, d: Directive, t: ArgType)
    requires InFormat(f, d)
    ensures |Rebuild(f, d, t)| ==
            1 + |FlagText(d.flags)| + FieldLength(d.width) + FieldLength(d.precision) + |SizeText(t)| + 1
    ensures |FlagText(d.flags)| <= 6 && |SizeText(t)| <= 2
  {
  }

  /** The rebuilt directive, `%n` and the null character fit, and with all flags and `ll` nothing is left over. */
  lemma ScratchFits(f: string, dirs: seq<Directive>, i: nat, t: ArgType)
    requires i < |dirs| && InFormat(f, dirs[i])
    ensures |Rebuild(f, dirs[i], t)| + 3 <= Needed(dirs)
    ensures dirs[i].flags == Flags(true, true, true, true, true, true) && t == TypeLongLong && |dirs| == 1 ==>
              |Rebuild(f, dirs[i], t)| + 3 == Needed(dirs)
  {
    WithinMax(dirs, i);
    RebuildLength(f, dirs[i], t);
    assert |dirs| == 1 ==> dirs[..0] == [];
  }

  // ----- What the rebuilt directive means -----

  function WithoutPosn(w: FieldSpec): FieldSpec { if w.Star? then Star("") else w }

  function RebuiltSpec(d: Spec): Spec
    requires SpecType(d).Some?
  {
    Spec("", FlagText(FlagsOf(d.flags)), WithoutPosn(d.width), WithoutPosn(d.precision),
         SizeText(SpecType(d).value), StoredConversion(d.conversion))
  }

  /** How an argument of type `t` is passed. */
  function Promoted(t: ArgType): ArgType {
    match t
    case TypeSChar | TypeShort => TypeInt
    case TypeUChar | TypeUShort => TypeUInt
    case _ => t
  }

  lemma LetterIn(s: string, b: bool, x: char, c: char)
    ensures c in s + Letter(b, x) <==> c in s || (b && c == x)
  {
  }

  lemma FlagIn(fl: Flags, c: char)
    ensures c in FlagText(fl) <==>
            || (fl.group && c == '\'') || (fl.left && c == '-') || (fl.showsign && c == '+')
            || (fl.space && c == ' ') || (fl.alt && c == '#') || (fl.zero && c == '0')
  {
    hide Letter;
    var s1 := Letter(fl.group, '\'');
    var s2 := s1 + Letter(fl.left, '-');
    var s3 := s2 + Letter(fl.showsign, '+');
    var s4 := s3 + Letter(fl.space, ' ');
    var s5 := s4 + Letter(fl.alt, '#');
    LetterIn("", fl.group, '\'', c);
    assert "" + s1 == s1;
    LetterIn(s1, fl.left, '-', c);
    LetterIn(s2, fl.showsign, '+', c);
    LetterIn(s3, fl.space, ' ', c);
    LetterIn(s4, fl.alt, '#', c);
    LetterIn(s5, fl.zero, '0', c);
  }

  lemma FlagTextBack(fl: Flags)
    ensures FlagsOf(FlagText(fl)) == fl && All(FlagText(fl), IsFlag)
  {
    hide FlagText;
    FlagIn(fl, '\'');
    FlagIn(fl, '-');
    FlagIn(fl, '+');
    FlagIn(fl, ' ');
    FlagIn(fl, '#');
    FlagIn(fl, '0');
    var t := FlagText(fl);
    forall k | 0 <= k < |t| ensures IsFlag(t[k]) { FlagIn(fl, t[k]); }
  }

  lemma SizeTextFlags(t: ArgType)
    ensures SizeFlags(SizeText(t)) == if SizeText(t) == "ll" then 16 else if SizeText(t) == "l" then 8
                                      else if SizeText(t) == "L" then 4 else 0
    ensures All(SizeText(t), IsSize)
  {
    assert "l"[..0] == "" && "L"[..0] == "" && "ll"[..1] == "l";
  }

  lemma RebuiltType(c: char, flags: nat)
    requires ConversionType(c, flags).Some? && c != '%' && c != 'n'
    ensures var t := ConversionType(c, flags).value;
            ConversionType(StoredConversion(c), SizeFlags(SizeText(t))) == Some(Promoted(t))
  {
    SizeTextFlags(ConversionType(c, flags).value);
  }

  lemma RebuiltWellFormed(d: Spec)
    requires WellFormed(d) && d.conversion != '%' && d.conversion != 'n'
    ensures WellFormed(RebuiltSpec(d)) && SpecType(RebuiltSpec(d)) == Some(Promoted(SpecType(d).value))
    ensures FlagsOf(RebuiltSpec(d).flags) == FlagsOf(d.flags)
  {
    hide FlagsOf, FlagText, SizeText, SizeFlags, ConversionType;
    FlagTextBack(FlagsOf(d.flags));
    SizeTextFlags(SpecType(d).value);
    RebuiltType(d.conversion, SizeFlags(d.sizes));
  }

  lemma WidthPart(f: string, i: nat, w: FieldSpec, index: Size)
    requires TextAt(f, i, WidthText(w))
    ensures var r := WidthField(w, i, index);
            r.start <= r.end <= |f| && f[r.start..r.end] == WidthText(WithoutPosn(w))
  {
    if w.Star? { TextChar(f, i, WidthText(w), 0); }
  }

  lemma PrecisionPart(f: string, i: nat, p: FieldSpec, index: Size)
    requires TextAt(f, i, PrecisionText(p))
    ensures var r := PrecisionField(p, i, index);
            r.start <= r.end <= |f| && f[r.start..r.end] == PrecisionText(WithoutPosn(p))
  {
    if p.Star? {
      TextChar(f, i, PrecisionText(p), 0);
      TextChar(f, i, PrecisionText(p), 1);
    }
  }

  lemma FieldTexts(f: string, d: Directive, spec: Spec)
    requires Laid(f, d.start, spec) && Describes(spec, d)
    ensures InFormat(f, d)
    ensures f[d.width.start..d.width.end] == WidthText(WithoutPosn(spec.width))
    ensures f[d.precision.start..d.precision.end] == PrecisionText(WithoutPosn(spec.precision))
  {
    hide TextAt, WidthField, PrecisionField, WidthText, PrecisionText, WithoutPosn, Text, FlagsOf;
    WidthPart(f, WidthStart(d.start, spec), spec.width, d.width.index);
    PrecisionPart(f, PrecisionStart(d.start, spec), spec.precision, d.precision.index);
  }

  /** What is rebuilt is the directive without its positions, and with the size of the type it was given. */
  lemma RebuildIsText(f: string, d: Directive, args: seq<ArgType>)
    requires Stands(f, d, args) && d.index != ARG_NONE
    ensures InFormat(f, d)
    ensures Rebuild(f, d, args[d.index]) == Text(RebuiltSpec(ReadSpec(f, d.start)))
  {
    hide FlagsOf, FlagText, SizeText, WellFormed, ReadSpec, TextAt, WidthText, PrecisionText, SpecType;
    var spec := ReadSpec(f, d.start);
    Layout(f, d.start, spec);
    FieldTexts(f, d, spec);
    NoPosnText(FlagText(d.flags) + (WidthText(WithoutPosn(spec.width)) +
      (PrecisionText(WithoutPosn(spec.precision)) + (SizeText(args[d.index]) + [d.conversion]))));
  }

  lemma NoPosnText(s: string)
    ensures PosnText("") + s == s
  {
  }

  /** The arguments that are passed to `snprintf`, in order. */
  function Passed(d: Spec): seq<ArgType>
    requires SpecType(d).Some?
  {
    (if d.width.Star? then [TypeInt] else []) + (if d.precision.Star? then [TypeInt] else []) + [SpecType(d).value]
  }

  lemma RegisterNext(s: State, t: ArgType)
    requires StateOk(s) && s.posn == |s.args| && |s.args| < 4 && s.room <= 8 && t != TypeNone
    ensures var c := ClaimArg(s, ARG_NONE, t);
            c.Some? && c.value.index == |s.args| && c.value.state.args == s.args + [t]
            && c.value.state.posn == |s.args| + 1 && c.value.state.room <= 8
  {
  }

  /** A directive without positions takes its width, its precision and its argument one after another. */
  lemma ApplyInOrder(d: Spec)
    requires WellFormed(d) && d.posn == "" && d.conversion != '%'
    requires (d.width.Star? ==> d.width.posn == "") && (d.precision.Star? ==> d.precision.posn == "")
    ensures var p := Apply(d, 0, NO_ARGS);
            && p.Some? && p.value.state.args == Passed(d) && p.value.dir.index == |Passed(d)| - 1
            && (d.width.Star? ==> p.value.dir.width.index == 0)
            && (d.precision.Star? ==> p.value.dir.precision.index == if d.width.Star? then 1 else 0)
  {
    hide ClaimArg, ConversionType, SizeFlags, Text, FlagsOf;
    ConversionNone(d.conversion, SizeFlags(d.sizes));
    var s0 := NO_ARGS;
    RegisterNext(s0, TypeInt);
    var s1 := if d.width.Star? then ClaimArg(s0, ARG_NONE, TypeInt).value.state else s0;
    RegisterNext(s1, TypeInt);
    var s2 := if d.precision.Star? then ClaimArg(s1, ARG_NONE, TypeInt).value.state else s1;
    RegisterNext(s2, SpecType(d).value);
  }

  /** `snprintf`, reading the rebuilt string by the same rules, sees the flags, the conversion and the field texts
      of the directive, and takes the arguments that are passed: width, precision, then the value. */
  lemma RebuiltMeaning(f: string, d: Directive, args: seq<ArgType>)
    requires Stands(f, d, args) && d.index != ARG_NONE && d.conversion != 'n'
    ensures InFormat(f, d)
    ensures var r, spec := Rebuild(f, d, args[d.index]), ReadSpec(f, d.start);
            && |r| > 0 && WellFormed(ReadSpec(r, 0)) && |Text(ReadSpec(r, 0))| == |r|
            && ReadSpec(r, 0) == RebuiltSpec(spec) && FlagsOf(RebuiltSpec(spec).flags) == d.flags
            && SpecType(RebuiltSpec(spec)) == Some(Promoted(args[d.index]))
            && DirectiveAt(r, 0, NO_ARGS).Some?
            && DirectiveAt(r, 0, NO_ARGS).value.state.args == Passed(RebuiltSpec(spec))
  {
    hide FlagsOf, WellFormed, ReadSpec, Text, SpecType, FlagText, Passed, Rebuild, SizeText, Apply, ConversionType;
    var spec := ReadSpec(f, d.start);
    RebuildIsText(f, d, args);
    var r, g := Rebuild(f, d, args[d.index]), RebuiltSpec(spec);
    NotPercent(spec, d, args);
    RebuiltWellFormed(spec);
    assert r[0..|r|] == r;
    TextRead(r, 0, g);
    ApplyInOrder(g);
  }

  lemma NotPercent(spec: Spec, d: Directive, args: seq<ArgType>)
    requires TypedBy(spec, d, args) && d.index != ARG_NONE && d.conversion != 'n'
    ensures spec.conversion != '%' && spec.conversion != 'n' && StoredConversion(spec.conversion) != '%'
    ensures SpecType(spec) == Some(args[d.index])
  {
  }
}
