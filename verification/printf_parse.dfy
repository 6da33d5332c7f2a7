/** The parser of printf format strings: what a directive is, and the fold over a format. */
module PrintfParse {
  import opened CStrings
  import opened Digits
  import opened Options
  import opened XSize

  /** `arg_index` of a directive, width or precision that uses no argument. */
  const ARG_NONE: Size := SIZE_MAX

  /** `sizeof (argument)` and `sizeof (char_directive)`. */
  const ARGUMENT_SIZE: nat := 32
  const DIRECTIVE_SIZE: nat := 88

  datatype ArgType =
    | TypeNone | TypeSChar | TypeUChar | TypeShort | TypeUShort | TypeInt | TypeUInt | TypeLong | TypeULong
    | TypeLongLong | TypeULongLong | TypeDouble | TypeLongDouble | TypeChar | TypeWideChar | TypeString
    | TypeWideString | TypePointer | CountSChar | CountShort | CountInt | CountLong | CountLongLong

  datatype Flags = Flags(group: bool, left: bool, showsign: bool, space: bool, alt: bool, zero: bool)

  /** Where a width or precision stands in the format, and its argument; `start == end` when absent. */
  datatype Field = Field(start: nat, end: nat, index: Size)

  const NO_FIELD := Field(0, 0, ARG_NONE)

  datatype Directive = Directive(start: nat, end: nat, flags: Flags, width: Field, precision: Field,
                                 conversion: char, index: Size)

  /** The argument types found so far, the room in their array, and the regular arguments consumed. */
  datatype State = State(args: seq<ArgType>, room: Size, posn: Size)

  predicate StateOk(s: State) { |s.args| <= s.room }

  // ----- Runs of characters -----

  predicate IsFlag(c: char) {
    c == '\'' || c == '-' || c == '+' || c == ' ' || c == '#' || c == '0'
  }

  predicate IsSize(c: char) {
    c == 'h' || c == 'L' || c == 'l' || c == 'j' || c == 'z' || c == 'Z' || c == 't'
  }

  /** The end of the longest run of characters in class `p`. */
  function RunEnd(f: string, i: nat, p: char -> bool): (j: nat)
    requires i <= |f|
    ensures i <= j <= |f|
    ensures forall k :: i <= k < j ==> p(f[k])
    ensures j < |f| ==> !p(f[j])
    decreases |f| - i
  {
    if i < |f| && p(f[i]) then RunEnd(f, i + 1, p) else i
  }

  lemma {:induction false} RunEndIs(f: string, i: nat, p: char -> bool, j: nat)
    requires i <= j <= |f|
    requires forall k :: i <= k < j ==> p(f[k])
    requires j < |f| ==> !p(f[j])
    ensures RunEnd(f, i, p) == j
    decreases j - i
  {
    if i < j { RunEndIs(f, i + 1, p, j); }
  }

  function FlagsOf(s: string): Flags {
    Flags('\'' in s, '-' in s, '+' in s, ' ' in s, '#' in s, '0' in s)
  }

  /** The number that `n = xsum (xtimes (n, 10), digit)` reads. */
  function Saturated(s: string): Size
    requires AllDigits(s)
  {
    if s == "" then 0 else XSum(XTimes(Saturated(s[..|s| - 1]), 10), Digit(s[|s| - 1]))
  }

  lemma {:induction false} SaturatedIsDecimal(s: string)
    requires AllDigits(s)
    ensures Saturated(s) == Min(Decimal(s), SIZE_MAX)
  {
    if s != "" { SaturatedIsDecimal(s[..|s| - 1]); }
  }

  // ----- Arguments -----

  function Nones(n: nat): (r: seq<ArgType>)
    ensures |r| == n && forall k :: 0 <= k < n ==> r[k] == TypeNone
  {
    seq(n, _ => TypeNone)
  }

  /** The array size after making room for index `n`. */
  function RoomFor(room: Size, n: Size): (r: Size)
    ensures r >= room && (r > n || Overflow(r))
  {
    if n < room then room else if XTimes(room, 2) <= n then XSum(n, 1) else XTimes(room, 2)
  }

  /** `REGISTER_ARG`: argument `n` has type `t`. */
  function Register(s: State, n: Size, t: ArgType): (r: Option<State>)
    requires StateOk(s)
    ensures r.Some? ==> StateOk(r.value) && |r.value.args| > n && r.value.posn == s.posn
  {
    var room := RoomFor(s.room, n);
    if n >= s.room && Overflow(XTimes(room, ARGUMENT_SIZE)) then None
    else
      var args := if |s.args| <= n then s.args + Nones(n + 1 - |s.args|) else s.args;
      if args[n] == TypeNone then Some(State(args[n := t], room, s.posn))
      else if args[n] != t then None
      else Some(State(args, room, s.posn))
  }

  /** An argument that a directive claimed. */
  datatype Claim = Claim(index: Size, state: State)

  /** The given argument, or else the next regular one, is registered with type `t`. */
  function ClaimArg(s: State, given: Size, t: ArgType): (r: Option<Claim>)
    requires StateOk(s)
    ensures r.Some? ==> StateOk(r.value.state) && r.value.index < ARG_NONE
  {
    var index := if given != ARG_NONE then given else s.posn;
    if index == ARG_NONE then None
    else
      match Register(if given != ARG_NONE then s else s.(posn := s.posn + 1), index, t)
      case None => None
      case Some(s1) => Some(Claim(index, s1))
  }

  // ----- The syntax of a directive -----

  /** A width or precision: absent, an argument with or without a position, or digits. */
  datatype FieldSpec = NoField | Star(posn: string) | Number(digits: string)

  /** A directive as written: the digits of its position, its flags, and so on. */
  datatype Spec = Spec(posn: string, flags: string, width: FieldSpec, precision: FieldSpec, sizes: string,
                       conversion: char)

  function PosnText(posn: string): string { if posn == "" then "" else posn + "$" }

  function WidthText(w: FieldSpec): string {
    match w
    case NoField => ""
    case Star(posn) => "*" + PosnText(posn)
    case Number(digits) => digits
  }

  function PrecisionText(p: FieldSpec): string { if p.NoField? then "" else "." + WidthText(p) }

  function Text(d: Spec): string {
    "%" + (PosnText(d.posn)
           + (d.flags + (WidthText(d.width) + (PrecisionText(d.precision) + (d.sizes + [d.conversion])))))
  }

  /** A position is the number written, counted from 1; 0 and numbers that do not fit below SIZE_MAX are refused. */
  lemma GivenMeaning(posn: string)
    requires AllDigits(posn) && posn != ""
    ensures var n := Decimal(posn); Given(posn) == if 0 < n < SIZE_MAX then Some(n - 1) else None
  {
    SaturatedIsDecimal(posn);
  }

  predicate FieldOk(w: FieldSpec) {
    match w
    case NoField => true
    case Star(posn) => AllDigits(posn)
    case Number(digits) => AllDigits(digits)
  }

  predicate SpecOk(d: Spec) {
    AllDigits(d.posn) && FieldOk(d.width) && FieldOk(d.precision)
  }

  /** The digits before a `$` at `cp`, if there are any. */
  function ReadPosn(f: string, cp: nat): (posn: string)
    requires cp <= |f|
    ensures AllDigits(posn) && cp + |PosnText(posn)| <= |f|
  {
    var np := RunEnd(f, cp, IsDigit);
    if np > cp && CharAt(f, np) == '$' then f[cp..np] else ""
  }

  function ReadWidth(f: string, cp: nat): (w: FieldSpec)
    requires cp <= |f|
    ensures FieldOk(w) && cp + |WidthText(w)| <= |f|
  {
    if CharAt(f, cp) == '*' then Star(ReadPosn(f, cp + 1))
    else
      var e := RunEnd(f, cp, IsDigit);
      if e > cp then Number(f[cp..e]) else NoField
  }

  function ReadPrecision(f: string, cp: nat): (p: FieldSpec)
    requires cp <= |f|
    ensures FieldOk(p) && cp + |PrecisionText(p)| <= |f|
  {
    if CharAt(f, cp) != '.' then NoField
    else if CharAt(f, cp + 1) == '*' then Star(ReadPosn(f, cp + 2))
    else Number(f[cp + 1..RunEnd(f, cp + 1, IsDigit)])
  }

  // Where the parts of the directive at `start` begin.

  function FlagsAt(f: string, start: nat): (cp: nat)
    requires start < |f|
    ensures start < cp <= |f|
  {
    start + 1 + |PosnText(ReadPosn(f, start + 1))|
  }

  function WidthAt(f: string, start: nat): (cp: nat)
    requires start < |f|
    ensures start < cp <= |f|
  {
    RunEnd(f, FlagsAt(f, start), IsFlag)
  }

  function PrecisionAt(f: string, start: nat): (cp: nat)
    requires start < |f|
    ensures start < cp <= |f|
  {
    WidthAt(f, start) + |WidthText(ReadWidth(f, WidthAt(f, start)))|
  }

  function SizesAt(f: string, start: nat): (cp: nat)
    requires start < |f|
    ensures start < cp <= |f|
  {
    PrecisionAt(f, start) + |PrecisionText(ReadPrecision(f, PrecisionAt(f, start)))|
  }

  function ConversionAt(f: string, start: nat): (cp: nat)
    requires start < |f|
    ensures start < cp <= |f|
  {
    RunEnd(f, SizesAt(f, start), IsSize)
  }

  /** The directive written at `start`; its conversion is a null character when the format ends before it. */
  function ReadSpec(f: string, start: nat): (d: Spec)
    requires start < |f|
    ensures SpecOk(d) && start + |Text(d)| == ConversionAt(f, start) + 1
    ensures ConversionAt(f, start) == |f| ==> d.conversion == '\0'
  {
    hide WidthText, PrecisionText, PosnText, FieldOk, AllDigits, RunEnd, ReadPosn, ReadWidth, ReadPrecision;
    Spec(ReadPosn(f, start + 1), f[FlagsAt(f, start)..WidthAt(f, start)], ReadWidth(f, WidthAt(f, start)),
         ReadPrecision(f, PrecisionAt(f, start)), f[SizesAt(f, start)..ConversionAt(f, start)],
         CharAt(f, ConversionAt(f, start)))
  }

  // ----- What a directive means -----

  /** The size flags after one more specifier, on a system with 32-bit `int` and 64-bit `long`:
      bits 0 and 1 count `h`, bit 2 is set by `L`, and every long specifier adds 8. */
  function AddSize(flags: nat, c: char): nat {
    if c == 'h' then
      if flags % 2 == 0 then flags + 1 else if flags / 2 % 2 == 0 then flags + 2 else flags
    else if c == 'L' then
      if flags / 4 % 2 == 0 then flags + 4 else flags
    else flags + 8
  }

  function SizeFlags(sizes: string): nat {
    if sizes == "" then 0 else AddSize(SizeFlags(sizes[..|sizes| - 1]), sizes[|sizes| - 1])
  }

  /** The argument type of conversion `c`; none for a character that converts nothing. */
  function ConversionType(c: char, flags: nat): Option<ArgType> {
    var longlong, longer, tiny, short :=
      flags >= 16 || flags / 4 % 2 == 1, flags >= 8, flags / 2 % 2 == 1, flags % 2 == 1;
    match c
    case 'd' | 'i' =>
      Some(if longlong then TypeLongLong else if longer then TypeLong else if tiny then TypeSChar
           else if short then TypeShort else TypeInt)
    case 'o' | 'u' | 'x' | 'X' =>
      Some(if longlong then TypeULongLong else if longer then TypeULong else if tiny then TypeUChar
           else if short then TypeUShort else TypeUInt)
    case 'f' | 'F' | 'e' | 'E' | 'g' | 'G' | 'a' | 'A' => Some(if longlong then TypeLongDouble else TypeDouble)
    case 'c' => Some(if longer then TypeWideChar else TypeChar)
    case 'C' => Some(TypeWideChar)
    case 's' => Some(if longer then TypeWideString else TypeString)
    case 'S' => Some(TypeWideString)
    case 'p' => Some(TypePointer)
    case 'n' =>
      Some(if longlong then CountLongLong else if longer then CountLong else if tiny then CountSChar
           else if short then CountShort else CountInt)
    case '%' => Some(TypeNone)
    case _ => None
  }

  lemma EndConvertsNothing(flags: nat)
    ensures ConversionType('\0', flags).None?
  {
  }

  function SpecType(d: Spec): Option<ArgType> { ConversionType(d.conversion, SizeFlags(d.sizes)) }

  /** `C` and `S` are stored as `c` and `s`. */
  function StoredConversion(c: char): char {
    if c == 'C' then 'c' else if c == 'S' then 's' else c
  }

  /** The index that a position gives; positions count from 1, and 0 and SIZE_MAX are refused. */
  function Given(posn: string): (r: Option<Size>)
    requires AllDigits(posn)
  {
    if posn == "" then Some(ARG_NONE)
    else
      var n := Saturated(posn);
      if n == 0 || Overflow(n) then None else Some(n - 1)
  }

  function ClaimField(s: State, w: FieldSpec): (r: Option<Claim>)
    requires StateOk(s) && FieldOk(w)
    ensures r.Some? ==> StateOk(r.value.state)
  {
    if !w.Star? then Some(Claim(ARG_NONE, s))
    else
      match Given(w.posn)
      case None => None
      case Some(given) => ClaimArg(s, given, TypeInt)
  }

  /** The argument that a conversion of type `t` converts. */
  function ClaimValue(s: State, given: Size, t: Option<ArgType>): (r: Option<Claim>)
    requires StateOk(s)
    ensures r.Some? ==> StateOk(r.value.state) && t.Some?
  {
    match t
    case None => None
    case Some(t) => if t == TypeNone then Some(Claim(ARG_NONE, s)) else ClaimArg(s, given, t)
  }

  function WidthField(w: FieldSpec, start: nat, index: Size): Field {
    match w
    case NoField => NO_FIELD
    case Star(_) => Field(start, start + 1, index)
    case Number(digits) => Field(start, start + |digits|, ARG_NONE)
  }

  function PrecisionField(p: FieldSpec, start: nat, index: Size): Field {
    match p
    case NoField => NO_FIELD
    case Star(_) => Field(start, start + 2, index)
    case Number(digits) => Field(start, start + 1 + |digits|, ARG_NONE)
  }

  /** A directive and the state after it. */
  datatype Parsed = Parsed(dir: Directive, state: State)

  /** The directive for `d` at `start`, with its width, its precision and its argument claimed in this order. */
  function Apply(d: Spec, start: nat, s: State): (r: Option<Parsed>)
    requires StateOk(s) && SpecOk(d)
    ensures r.Some? ==> StateOk(r.value.state) && r.value.dir.start == start
    ensures r.Some? ==> r.value.dir.end == start + |Text(d)| && SpecType(d).Some?
  {
    var widthStart := start + 1 + |PosnText(d.posn)| + |d.flags|;
    match Given(d.posn)
    case None => None
    case Some(given) =>
      match ClaimField(s, d.width)
      case None => None
      case Some(w) =>
        match ClaimField(w.state, d.precision)
        case None => None
        case Some(p) =>
          match ClaimValue(p.state, given, SpecType(d))
          case None => None
          case Some(a) =>
            Some(Parsed(Directive(start, start + |Text(d)|, FlagsOf(d.flags),
                                  WidthField(d.width, widthStart, w.index),
                                  PrecisionField(d.precision, widthStart + |WidthText(d.width)|, p.index),
                                  StoredConversion(d.conversion), a.index), a.state))
  }

  /** The directive whose `%` is at `start`. */
  function DirectiveAt(f: string, start: nat, s: State): (r: Option<Parsed>)
    requires start < |f| && StateOk(s)
    ensures r.Some? ==> StateOk(r.value.state) && start + 1 < r.value.dir.end <= |f| && r.value.dir.start == start
  {
    hide Text, SpecOk, ReadSpec, Apply, ConversionType;
    EndConvertsNothing(SizeFlags(ReadSpec(f, start).sizes));
    Apply(ReadSpec(f, start), start, s)
  }

  // ----- A whole format -----

  /** The directives of a format and the types of the arguments they use. */
  datatype Format = Format(dirs: seq<Directive>, args: seq<ArgType>)

  /** The parse from `cp` on; `room` directives fit in the array. */
  function ParseFrom(f: string, cp: nat, dirs: seq<Directive>, room: Size, s: State): Option<Format>
    requires cp <= |f| && StateOk(s)
    decreases |f| - cp
  {
    if cp == |f| then Some(Format(dirs, s.args))
    else if f[cp] != '%' then ParseFrom(f, cp + 1, dirs, room, s)
    else
      match DirectiveAt(f, cp, s)
      case None => None
      case Some(p) =>
        var count := |dirs| + 1;
        var room1 := if count >= room then XTimes(room, 2) else room;
        if count >= room && Overflow(XTimes(room1, DIRECTIVE_SIZE)) then None
        else ParseFrom(f, p.dir.end, dirs + [p.dir], room1, p.state)
  }

  const NO_ARGS := State([], 0, 0)

  /** `printf_parse`. */
  function Parse(f: string): Option<Format> { ParseFrom(f, 0, [], 1, NO_ARGS) }

  function FieldLength(w: Field): int { w.end - w.start }

  function MaxWidth(dirs: seq<Directive>): int {
    if dirs == [] then 0
    else
      var m, n := MaxWidth(dirs[..|dirs| - 1]), FieldLength(dirs[|dirs| - 1].width);
      if m < n then n else m
  }

  function MaxPrecision(dirs: seq<Directive>): int {
    if dirs == [] then 0
    else
      var m, n := MaxPrecision(dirs[..|dirs| - 1]), FieldLength(dirs[|dirs| - 1].precision);
      if m < n then n else m
  }
}
