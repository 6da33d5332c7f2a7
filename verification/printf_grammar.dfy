/** Directives are read back exactly as they are written (section 7.19.6.1 of ISO/IEC 9899:1999,
    with the positions of POSIX). */
module PrintfGrammar {
  import opened CStrings
  import opened Digits
  import opened PrintfParse

  predicate All(s: string, p: char -> bool) { forall k :: 0 <= k < |s| ==> p(s[k]) }

  /** The directives of the grammar; a width starts with another digit than 0, which is a flag. */
  predicate WellFormed(d: Spec) {
    && SpecOk(d) && All(d.flags, IsFlag) && All(d.sizes, IsSize) && SpecType(d).Some?
    && (d.width.Number? ==> d.width.digits != "" && d.width.digits[0] != '0')
  }

  predicate TextAt(f: string, i: nat, t: string) { i + |t| <= |f| && f[i..i + |t|] == t }

  lemma TextSplit(f: string, i: nat, a: string, b: string)
    ensures TextAt(f, i, a + b) <==> TextAt(f, i, a) && TextAt(f, i + |a|, b)
  {
    if i + |a| + |b| <= |f| {
      var t := f[i..i + |a| + |b|];
      assert t[..|a|] == f[i..i + |a|] && t[|a|..] == f[i + |a|..i + |a| + |b|] && t == t[..|a|] + t[|a|..];
      assert (a + b)[..|a|] == a && (a + b)[|a|..] == b;
    }
  }

  lemma TextChar(f: string, i: nat, t: string, k: nat)
    requires TextAt(f, i, t) && k < |t|
    ensures i + k < |f| && f[i + k] == t[k]
  {
    assert f[i..i + |t|][k] == f[i + k];
  }

  lemma RunText(f: string, i: nat, t: string, p: char -> bool)
    requires TextAt(f, i, t) && All(t, p) && (i + |t| < |f| ==> !p(f[i + |t|]))
    ensures RunEnd(f, i, p) == i + |t| && f[i..i + |t|] == t
  {
    forall k | i <= k < i + |t| ensures p(f[k]) { TextChar(f, i, t, k - i); }
    RunEndIs(f, i, p, i + |t|);
  }

  // ----- Where the parts of a directive stand -----

  function FlagsStart(start: nat, d: Spec): nat { start + 1 + |PosnText(d.posn)| }

  function WidthStart(start: nat, d: Spec): nat { FlagsStart(start, d) + |d.flags| }

  function PrecisionStart(start: nat, d: Spec): nat { WidthStart(start, d) + |WidthText(d.width)| }

  function SizesStart(start: nat, d: Spec): nat { PrecisionStart(start, d) + |PrecisionText(d.precision)| }

  function ConversionStart(start: nat, d: Spec): nat { SizesStart(start, d) + |d.sizes| }

  /** The parts of `d` stand one after another. */
  predicate Laid(f: string, start: nat, d: Spec) {
    && TextAt(f, start, "%") && TextAt(f, start + 1, PosnText(d.posn))
    && TextAt(f, FlagsStart(start, d), d.flags) && TextAt(f, WidthStart(start, d), WidthText(d.width))
    && TextAt(f, PrecisionStart(start, d), PrecisionText(d.precision))
    && TextAt(f, SizesStart(start, d), d.sizes) && TextAt(f, ConversionStart(start, d), [d.conversion])
  }

  lemma Layout(f: string, start: nat, d: Spec)
    ensures TextAt(f, start, Text(d)) <==> Laid(f, start, d)
    ensures start + |Text(d)| == ConversionStart(start, d) + 1
  {
    hide TextAt, PosnText, WidthText, PrecisionText;
    var c := [d.conversion];
    var s := d.sizes + c;
    var p := PrecisionText(d.precision) + s;
    var w := WidthText(d.width) + p;
    var l := d.flags + w;
    var x := PosnText(d.posn) + l;
    TextSplit(f, start, "%", x);
    TextSplit(f, start + 1, PosnText(d.posn), l);
    TextSplit(f, FlagsStart(start, d), d.flags, w);
    TextSplit(f, WidthStart(start, d), WidthText(d.width), p);
    TextSplit(f, PrecisionStart(start, d), PrecisionText(d.precision), s);
    TextSplit(f, SizesStart(start, d), d.sizes, c);
  }

  // ----- Reading what is there -----

  lemma OneChar(f: string, i: nat)
    requires i < |f|
    ensures TextAt(f, i, [f[i]])
  {
  }

  lemma Slice(f: string, i: nat, j: nat)
    requires i <= j <= |f|
    ensures TextAt(f, i, f[i..j]) && f[i..i] == ""
  {
  }

  lemma ReadPosnText(f: string, cp: nat)
    requires cp <= |f|
    ensures TextAt(f, cp, PosnText(ReadPosn(f, cp)))
  {
    var np := RunEnd(f, cp, IsDigit);
    if np > cp && CharAt(f, np) == '$' {
      assert f[cp..np + 1] == f[cp..np] + "$";
    }
  }

  lemma ReadWidthText(f: string, cp: nat)
    requires cp <= |f|
    ensures TextAt(f, cp, WidthText(ReadWidth(f, cp)))
  {
    hide TextAt, PosnText, ReadPosn, RunEnd;
    if CharAt(f, cp) == '*' {
      OneChar(f, cp);
      ReadPosnText(f, cp + 1);
      TextSplit(f, cp, "*", PosnText(ReadPosn(f, cp + 1)));
    } else {
      RunAll(f, cp, IsDigit);
      Slice(f, cp, cp);
    }
  }

  lemma StarPrecisionText(f: string, cp: nat)
    requires cp <= |f| && CharAt(f, cp) == '.' && CharAt(f, cp + 1) == '*'
    ensures TextAt(f, cp, PrecisionText(ReadPrecision(f, cp)))
  {
    hide TextAt, PosnText, ReadPosn, RunEnd;
    ReadPosnText(f, cp + 2);
    OneChar(f, cp);
    OneChar(f, cp + 1);
    TextSplit(f, cp + 1, "*", PosnText(ReadPosn(f, cp + 2)));
    TextSplit(f, cp, ".", WidthText(ReadPrecision(f, cp)));
  }

  lemma DigitsPrecisionText(f: string, cp: nat)
    requires cp <= |f| && CharAt(f, cp) == '.' && CharAt(f, cp + 1) != '*'
    ensures TextAt(f, cp, PrecisionText(ReadPrecision(f, cp)))
  {
    hide TextAt, PosnText, ReadPosn, RunEnd;
    OneChar(f, cp);
    Slice(f, cp + 1, RunEnd(f, cp + 1, IsDigit));
    TextSplit(f, cp, ".", WidthText(ReadPrecision(f, cp)));
  }

  lemma ReadPrecisionText(f: string, cp: nat)
    requires cp <= |f|
    ensures TextAt(f, cp, PrecisionText(ReadPrecision(f, cp)))
  {
    hide TextAt, PosnText, ReadPosn, RunEnd;
    if CharAt(f, cp) == '.' && CharAt(f, cp + 1) == '*' {
      hide *;
      StarPrecisionText(f, cp);
    } else if CharAt(f, cp) == '.' {
      hide *;
      DigitsPrecisionText(f, cp);
    } else {
      Slice(f, cp, cp);
    }
  }

  lemma RunAll(f: string, i: nat, p: char -> bool)
    requires i <= |f|
    ensures All(f[i..RunEnd(f, i, p)], p) && TextAt(f, i, f[i..RunEnd(f, i, p)])
  {
    var t := f[i..RunEnd(f, i, p)];
    assert forall k :: 0 <= k < |t| ==> t[k] == f[i + k];
  }

  lemma WidthDigits(f: string, cp: nat)
    requires cp <= |f| && (cp < |f| ==> !IsFlag(f[cp]))
    ensures var w := ReadWidth(f, cp); w.Number? ==> w.digits != "" && w.digits[0] != '0'
  {
  }

  lemma ReadSpecParts(f: string, start: nat)
    requires start < |f|
    ensures var d := ReadSpec(f, start);
            && FlagsStart(start, d) == FlagsAt(f, start) && WidthStart(start, d) == WidthAt(f, start)
            && PrecisionStart(start, d) == PrecisionAt(f, start) && SizesStart(start, d) == SizesAt(f, start)
            && ConversionStart(start, d) == ConversionAt(f, start)
  {
    hide RunEnd, PosnText, WidthText, PrecisionText, ReadPosn, ReadWidth, ReadPrecision, Text, SpecOk;
  }

  /** Whatever is read stands in the format, up to its conversion. */
  lemma ReadSpecText(f: string, start: nat)
    requires start < |f| && f[start] == '%' && '\0' !in f
    requires SpecType(ReadSpec(f, start)).Some?
    ensures TextAt(f, start, Text(ReadSpec(f, start))) && WellFormed(ReadSpec(f, start))
  {
    var d := ReadSpec(f, start);
    EndConvertsNothing(SizeFlags(d.sizes));
    ReadSpecParts(f, start);
    hide Text, WidthText, PrecisionText, PosnText, ReadPosn, ReadWidth, ReadPrecision, ConversionType, SizeFlags,
      FlagsStart, WidthStart, PrecisionStart, SizesStart, ConversionStart, RunEnd, TextAt, All,
      FlagsAt, PrecisionAt, SizesAt;
    OneChar(f, start);
    ReadPosnText(f, start + 1);
    RunAll(f, FlagsAt(f, start), IsFlag);
    ReadWidthText(f, WidthAt(f, start));
    ReadPrecisionText(f, PrecisionAt(f, start));
    RunAll(f, SizesAt(f, start), IsSize);
    OneChar(f, ConversionAt(f, start));
    Layout(f, start, d);
    WidthDigits(f, WidthAt(f, start));
  }

  // ----- Reading back what was written -----

  lemma ConversionChar(c: char, flags: nat)
    requires ConversionType(c, flags).Some?
    ensures !IsSize(c) && !IsFlag(c) && !IsDigit(c) && c != '*' && c != '.' && c != '$' && c != '\0'
  {
  }

  /** What may follow a width (`'.'`), a precision or the flags. */
  predicate EndsField(c: char) { !IsDigit(c) && !IsFlag(c) && c != '$' && c != '*' }

  lemma AfterPrecision(f: string, start: nat, d: Spec)
    requires WellFormed(d) && Laid(f, start, d)
    ensures ConversionStart(start, d) < |f| && f[ConversionStart(start, d)] == d.conversion && !IsSize(d.conversion)
    ensures SizesStart(start, d) < |f| && EndsField(f[SizesStart(start, d)]) && f[SizesStart(start, d)] != '.'
  {
    hide TextAt, ConversionType, SizeFlags, PosnText, WidthText, PrecisionText, SpecOk, PrecisionStart, WidthStart;
    ConversionChar(d.conversion, SizeFlags(d.sizes));
    TextChar(f, ConversionStart(start, d), [d.conversion], 0);
    if d.sizes != "" { TextChar(f, SizesStart(start, d), d.sizes, 0); }
  }

  lemma AfterWidth(f: string, start: nat, d: Spec)
    requires WellFormed(d) && Laid(f, start, d)
    ensures PrecisionStart(start, d) < |f| && EndsField(f[PrecisionStart(start, d)])
    ensures f[PrecisionStart(start, d)] == '.' <==> !d.precision.NoField?
  {
    hide WellFormed, TextAt, PosnText, WidthText, PrecisionText, FlagsStart, WidthStart, PrecisionStart, EndsField;
    AfterPrecision(f, start, d);
    FirstOfPrecision(d.precision);
    if !d.precision.NoField? { TextChar(f, PrecisionStart(start, d), PrecisionText(d.precision), 0); }
  }

  lemma FirstOfPrecision(p: FieldSpec)
    ensures if p.NoField? then PrecisionText(p) == "" else PrecisionText(p) != "" && PrecisionText(p)[0] == '.'
    ensures EndsField('.')
  {
  }

  lemma FirstOfWidth(w: FieldSpec)
    requires FieldOk(w) && (w.Number? ==> w.digits != "" && w.digits[0] != '0')
    ensures if w.NoField? then WidthText(w) == "" else WidthText(w) != ""
    ensures !w.NoField? ==> var c := WidthText(w)[0]; !IsFlag(c) && c != '$' && (c == '*' <==> w.Star?)
  {
  }

  lemma WellFormedWidth(d: Spec)
    requires WellFormed(d)
    ensures FieldOk(d.width) && (d.width.Number? ==> d.width.digits != "" && d.width.digits[0] != '0')
  {
    hide FieldOk;
  }

  lemma EndsFieldIs(c: char)
    requires EndsField(c)
    ensures !IsFlag(c) && c != '$' && c != '*'
  {
  }

  lemma AfterFlags(f: string, start: nat, d: Spec)
    requires WellFormed(d) && Laid(f, start, d)
    ensures var i := WidthStart(start, d); i < |f| && !IsFlag(f[i]) && f[i] != '$' && (f[i] == '*' <==> d.width.Star?)
  {
    hide WellFormed, TextAt, PosnText, WidthText, PrecisionText, FlagsStart, WidthStart, EndsField, IsFlag;
    AfterWidth(f, start, d);
    WellFormedWidth(d);
    FirstOfWidth(d.width);
    EndsFieldIs(f[PrecisionStart(start, d)]);
    if !d.width.NoField? { TextChar(f, WidthStart(start, d), WidthText(d.width), 0); }
  }

  lemma PosnBack(f: string, cp: nat, posn: string)
    requires AllDigits(posn) && TextAt(f, cp, PosnText(posn))
    requires posn == "" ==> CharAt(f, RunEnd(f, cp, IsDigit)) != '$'
    ensures ReadPosn(f, cp) == posn
  {
    if posn != "" {
      TextSplit(f, cp, posn, "$");
      TextChar(f, cp + |posn|, "$", 0);
      RunText(f, cp, posn, IsDigit);
    }
  }

  lemma StarBack(f: string, cp: nat, posn: string)
    requires AllDigits(posn) && TextAt(f, cp, PosnText(posn))
    requires var j := cp + |PosnText(posn)|; j < |f| && EndsField(f[j])
    ensures ReadPosn(f, cp) == posn
  {
    PosnBack(f, cp, posn);
  }

  lemma WidthBack(f: string, cp: nat, w: FieldSpec)
    requires FieldOk(w) && (w.Number? ==> w.digits != "") && TextAt(f, cp, WidthText(w))
    requires var j := cp + |WidthText(w)|; j < |f| && EndsField(f[j])
    ensures ReadWidth(f, cp) == w
  {
    hide TextAt, RunEnd, ReadPosn, PosnText;
    match w
    case NoField =>
    case Star(posn) =>
      TextSplit(f, cp, "*", PosnText(posn));
      TextChar(f, cp, "*", 0);
      StarBack(f, cp + 1, posn);
    case Number(digits) =>
      TextChar(f, cp, digits, 0);
      RunText(f, cp, digits, IsDigit);
  }

  lemma AfterDot(f: string, cp: nat, p: FieldSpec)
    requires !p.NoField? && TextAt(f, cp, PrecisionText(p))
    ensures cp < |f| && f[cp] == '.' && TextAt(f, cp + 1, WidthText(p))
  {
    hide TextAt, WidthText;
    TextSplit(f, cp, ".", WidthText(p));
    TextChar(f, cp, ".", 0);
  }

  lemma StarPrecisionBack(f: string, cp: nat, posn: string)
    requires AllDigits(posn) && TextAt(f, cp, "*" + PosnText(posn)) && cp > 0 && f[cp - 1] == '.'
    requires var j := cp + 1 + |PosnText(posn)|; j < |f| && EndsField(f[j])
    ensures ReadPrecision(f, cp - 1) == Star(posn)
  {
    hide TextAt, RunEnd, ReadPosn, PosnText, AllDigits, EndsField;
    TextSplit(f, cp, "*", PosnText(posn));
    TextChar(f, cp, "*", 0);
    StarBack(f, cp + 1, posn);
  }

  lemma DigitsPrecisionBack(f: string, cp: nat, digits: string)
    requires AllDigits(digits) && TextAt(f, cp, digits) && cp > 0 && f[cp - 1] == '.'
    requires var j := cp + |digits|; j < |f| && EndsField(f[j])
    ensures ReadPrecision(f, cp - 1) == Number(digits)
  {
    hide TextAt, RunEnd, ReadPosn;
    RunText(f, cp, digits, IsDigit);
    if digits != "" { TextChar(f, cp, digits, 0); }
  }

  lemma PrecisionBack(f: string, cp: nat, p: FieldSpec)
    requires FieldOk(p) && TextAt(f, cp, PrecisionText(p))
    requires var j := cp + |PrecisionText(p)|; j < |f| && EndsField(f[j]) && f[j] != '.'
    ensures ReadPrecision(f, cp) == p
  {
    hide TextAt, ReadPosn, PosnText, AllDigits, EndsField;
    if !p.NoField? {
      AfterDot(f, cp, p);
      hide ReadPrecision;
      match p
      case Star(posn) => StarPrecisionBack(f, cp + 1, posn);
      case Number(digits) => DigitsPrecisionBack(f, cp + 1, digits);
    }
  }

  /** Without a position, the digits behind the `%` are not followed by a `$`. */
  lemma NoPosition(f: string, start: nat, d: Spec)
    requires WellFormed(d) && Laid(f, start, d) && d.posn == "" && start + 1 <= |f|
    ensures CharAt(f, RunEnd(f, start + 1, IsDigit)) != '$'
  {
    hide TextAt, RunEnd, PrecisionText, SpecType;
    var j, i := RunEnd(f, start + 1, IsDigit), WidthStart(start, d);
    if j < i {
      TextChar(f, start + 1, d.flags, j - start - 1);
    } else {
      AfterFlags(f, start, d);
      AfterWidth(f, start, d);
      RunEndIs(f, i, IsDigit, j);
      if d.width.Number? { RunText(f, i, d.width.digits, IsDigit); }
    }
  }

  /** What follows each part, and that there is no position unless one is written. */
  lemma Follows(f: string, start: nat, d: Spec)
    requires WellFormed(d) && Laid(f, start, d)
    ensures start < |f| && f[start] == '%'
    ensures ConversionStart(start, d) < |f| && f[ConversionStart(start, d)] == d.conversion && !IsSize(d.conversion)
    ensures var i := SizesStart(start, d); i < |f| && EndsField(f[i]) && f[i] != '.'
    ensures var i := PrecisionStart(start, d); i < |f| && EndsField(f[i])
    ensures var i := WidthStart(start, d); i < |f| && !IsFlag(f[i])
    ensures d.posn == "" ==> CharAt(f, RunEnd(f, start + 1, IsDigit)) != '$'
    ensures AllDigits(d.posn) && FieldOk(d.width) && FieldOk(d.precision) && All(d.flags, IsFlag)
            && All(d.sizes, IsSize)
    ensures d.width.Number? ==> d.width.digits != ""
  {
    hide Laid, TextAt, SpecType, RunEnd, ConversionStart, SizesStart, PrecisionStart, WidthStart;
    StartsWithPercent(f, start, d);
    AfterFlags(f, start, d);
    AfterWidth(f, start, d);
    AfterPrecision(f, start, d);
    if d.posn == "" { NoPosition(f, start, d); }
  }

  lemma StartsWithPercent(f: string, start: nat, d: Spec)
    requires Laid(f, start, d)
    ensures start < |f| && f[start] == '%'
  {
    TextChar(f, start, "%", 0);
  }

  /** A directive is read back as it was written. */
  lemma TextRead(f: string, start: nat, d: Spec)
    requires WellFormed(d) && TextAt(f, start, Text(d))
    ensures start < |f| && f[start] == '%' && ReadSpec(f, start) == d
  {
    hide Text, TextAt, PosnText, WidthText, PrecisionText, ReadPosn, ReadWidth, ReadPrecision, SpecType, RunEnd, All,
      FlagsStart, WidthStart, PrecisionStart, SizesStart, ConversionStart, WellFormed, AllDigits, FieldOk, IsFlag,
      IsSize, EndsField, SpecOk;
    Layout(f, start, d);
    Follows(f, start, d);
    Starts(start, d);
    PosnBack(f, start + 1, d.posn);
    RunText(f, FlagsStart(start, d), d.flags, IsFlag);
    WidthBack(f, WidthStart(start, d), d.width);
    PrecisionBack(f, PrecisionStart(start, d), d.precision);
    RunText(f, SizesStart(start, d), d.sizes, IsSize);
    assert FlagsAt(f, start) == FlagsStart(start, d);
    assert WidthAt(f, start) == WidthStart(start, d);
    assert PrecisionAt(f, start) == PrecisionStart(start, d);
    assert SizesAt(f, start) == SizesStart(start, d);
    assert ConversionAt(f, start) == ConversionStart(start, d);
  }

  lemma Starts(start: nat, d: Spec)
    ensures FlagsStart(start, d) == start + 1 + |PosnText(d.posn)|
    ensures WidthStart(start, d) == FlagsStart(start, d) + |d.flags|
    ensures PrecisionStart(start, d) == WidthStart(start, d) + |WidthText(d.width)|
    ensures SizesStart(start, d) == PrecisionStart(start, d) + |PrecisionText(d.precision)|
    ensures ConversionStart(start, d) == SizesStart(start, d) + |d.sizes|
  {
  }
}
