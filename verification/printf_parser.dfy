/** `printf_parse` with its cursor and its growing arrays, proved against the parse of the format. */
module PrintfParser {
  import opened CStrings
  import opened Digits
  import opened Options
  import opened XSize
  import opened PrintfParse

  // ----- Scanning -----

  method ScanDigits(f: string, cp: nat) returns (end: nat)
    requires cp <= |f| && '\0' !in f
    ensures end == RunEnd(f, cp, IsDigit)
  {
    end := cp;
    while IsDigit(CharAt(f, end))
      invariant cp <= end <= |f| && forall k :: cp <= k < end ==> IsDigit(f[k])
      decreases |f| - end
    {
      end := end + 1;
    }
    RunEndIs(f, cp, IsDigit, end);
  }

  lemma SaturatedStep(f: string, cp: nat, np: nat)
    requires cp <= np < |f| && AllDigits(f[cp..np]) && IsDigit(f[np])
    ensures AllDigits(f[cp..np + 1])
    ensures Saturated(f[cp..np + 1]) == XSum(XTimes(Saturated(f[cp..np]), 10), Digit(f[np]))
  {
    var s := f[cp..np + 1];
    assert s[..|s| - 1] == f[cp..np] && s[|s| - 1] == f[np];
  }

  /** The test for a positional argument, which appears three times. */
  method ScanPosition(f: string, cp: nat) returns (ok: bool, index: Size, next: nat)
    requires cp <= |f| && '\0' !in f
    ensures ok <==> Given(ReadPosn(f, cp)).Some?
    ensures ok ==> index == Given(ReadPosn(f, cp)).value && next == cp + |PosnText(ReadPosn(f, cp))|
  {
    hide Saturated, RunEnd;
    ok, index, next := true, ARG_NONE, cp;
    if IsDigit(CharAt(f, cp)) {
      var end := ScanDigits(f, cp);
      if CharAt(f, end) == '$' {
        var n: Size := 0;
        var np := cp;
        SaturatedNothing();
        assert f[cp..cp] == "";
        while IsDigit(CharAt(f, np))
          invariant cp <= np <= end && AllDigits(f[cp..np]) && n == Saturated(f[cp..np])
          decreases end - np
        {
          SaturatedStep(f, cp, np);
          n := XSum(XTimes(n, 10), Digit(f[np]));
          np := np + 1;
        }
        if n == 0 || Overflow(n) {
          return false, ARG_NONE, cp;
        }
        index, next := n - 1, np + 1;
      }
    }
  }

  lemma SaturatedNothing()
    ensures Saturated("") == 0
  {
  }

  method ScanFlags(f: string, cp: nat) returns (flags: Flags, end: nat)
    requires cp <= |f| && '\0' !in f
    ensures end == RunEnd(f, cp, IsFlag) && flags == FlagsOf(f[cp..end])
  {
    flags, end := Flags(false, false, false, false, false, false), cp;
    while IsFlag(CharAt(f, end))
      invariant cp <= end <= |f| && (forall k :: cp <= k < end ==> IsFlag(f[k])) && flags == FlagsOf(f[cp..end])
      decreases |f| - end
    {
      assert f[cp..end + 1] == f[cp..end] + [f[end]];
      match f[end] {
        case '\'' => flags := flags.(group := true);
        case '-' => flags := flags.(left := true);
        case '+' => flags := flags.(showsign := true);
        case ' ' => flags := flags.(space := true);
        case '#' => flags := flags.(alt := true);
        case _ => flags := flags.(zero := true);
      }
      end := end + 1;
    }
    RunEndIs(f, cp, IsFlag, end);
  }

  method ScanSizes(f: string, cp: nat) returns (flags: nat, end: nat)
    requires cp <= |f| && '\0' !in f
    ensures end == RunEnd(f, cp, IsSize) && flags == SizeFlags(f[cp..end])
  {
    hide AddSize;
    flags, end := 0, cp;
    while IsSize(CharAt(f, end))
      invariant cp <= end <= |f| && (forall k :: cp <= k < end ==> IsSize(f[k])) && flags == SizeFlags(f[cp..end])
      decreases |f| - end
    {
      var s := f[cp..end + 1];
      assert s[..|s| - 1] == f[cp..end] && s[|s| - 1] == f[end];
      flags := AddSize(flags, f[end]);
      end := end + 1;
    }
    RunEndIs(f, cp, IsSize, end);
  }

  // ----- The array of argument types -----

  /** The first `count` slots of `arg` hold the types in `s`, and all its slots are the room in `s`. */
  predicate Holds(arg: array<ArgType>, count: nat, s: State)
    reads arg
  {
    count == |s.args| <= arg.Length == s.room && arg[..count] == s.args
  }

  method Enlarge(arg: array<ArgType>, count: nat, n: Size, ghost s: State) returns (ok: bool, memory: array<ArgType>)
    requires Holds(arg, count, s)
    ensures ok <==> !(n >= s.room && Overflow(XTimes(RoomFor(s.room, n), ARGUMENT_SIZE)))
    ensures ok ==> Holds(memory, count, s.(room := RoomFor(s.room, n)))
    ensures memory == arg || fresh(memory)
  {
    ok, memory := true, arg;
    if n >= arg.Length {
      var room := RoomFor(arg.Length, n);
      if Overflow(XTimes(room, ARGUMENT_SIZE)) {
        return false, arg;
      }
      memory := new ArgType[room];
      for i := 0 to count
        invariant memory[..i] == s.args[..i]
      {
        memory[i] := arg[i];
      }
    }
  }

  method FillNone(arg: array<ArgType>, count: nat, n: Size, ghost s: State) returns (count1: nat)
    requires Holds(arg, count, s) && n < s.room
    modifies arg
    ensures Holds(arg, count1, s.(args := if |s.args| <= n then s.args + Nones(n + 1 - |s.args|) else s.args))
  {
    count1 := count;
    while count1 <= n
      invariant count <= count1 <= arg.Length && count1 <= if count <= n then n + 1 else count
      invariant arg[..count1] == s.args + Nones(count1 - count)
    {
      arg[count1] := TypeNone;
      count1 := count1 + 1;
    }
  }

  method RegisterArg(arg: array<ArgType>, count: nat, n: Size, t: ArgType, ghost s: State)
    returns (ok: bool, arg1: array<ArgType>, count1: nat)
    requires Holds(arg, count, s)
    modifies arg
    ensures ok <==> Register(s, n, t).Some?
    ensures ok ==> Holds(arg1, count1, Register(s, n, t).value)
    ensures arg1 == arg || fresh(arg1)
  {
    ok, arg1 := Enlarge(arg, count, n, s);
    count1 := count;
    if ok {
      count1 := FillNone(arg1, count, n, s.(room := RoomFor(s.room, n)));
      if arg1[n] == TypeNone {
        arg1[n] := t;
      } else if arg1[n] != t {
        ok := false;
      }
    }
  }

  method TakeArg(arg: array<ArgType>, count: nat, posn: Size, given: Size, t: ArgType, ghost s: State)
    returns (ok: bool, index: Size, posn1: Size, arg1: array<ArgType>, count1: nat)
    requires Holds(arg, count, s) && s.posn == posn
    modifies arg
    ensures ok <==> ClaimArg(s, given, t).Some?
    ensures ok ==> var c := ClaimArg(s, given, t).value;
                   index == c.index && posn1 == c.state.posn && Holds(arg1, count1, c.state)
    ensures arg1 == arg || fresh(arg1)
  {
    hide Register;
    ok, index, posn1, arg1, count1 := true, given, posn, arg, count;
    if index == ARG_NONE {
      index := posn;
      posn1 := WrapAdd(posn, 1);
      if index == ARG_NONE {
        return false, index, posn1, arg, count;
      }
    }
    ok, arg1, count1 := RegisterArg(arg, count, index, t, if given != ARG_NONE then s else s.(posn := s.posn + 1));
  }

  // ----- One directive -----

  /** A `*` before `cp`, with or without a position. */
  method ScanStar(f: string, cp: nat, arg: array<ArgType>, count: nat, posn: Size, ghost s: State)
    returns (ok: bool, index: Size, next: nat, posn1: Size, arg1: array<ArgType>, count1: nat)
    requires cp <= |f| && '\0' !in f && Holds(arg, count, s) && s.posn == posn
    modifies arg
    ensures ok <==> ClaimField(s, Star(ReadPosn(f, cp))).Some?
    ensures ok ==> var c := ClaimField(s, Star(ReadPosn(f, cp))).value;
                   && index == c.index && next == cp + |PosnText(ReadPosn(f, cp))|
                   && posn1 == c.state.posn && Holds(arg1, count1, c.state)
    ensures arg1 == arg || fresh(arg1)
  {
    hide ReadPosn, Given, ClaimArg, PosnText;
    index, next, posn1, arg1, count1 := ARG_NONE, cp, posn, arg, count;
    var given: Size;
    ok, given, next := ScanPosition(f, cp);
    if ok {
      ok, index, posn1, arg1, count1 := TakeArg(arg, count, posn, given, TypeInt, s);
    }
  }

  method ScanWidth(f: string, cp: nat, arg: array<ArgType>, count: nat, posn: Size, ghost s: State)
    returns (ok: bool, w: Field, next: nat, posn1: Size, arg1: array<ArgType>, count1: nat)
    requires cp <= |f| && '\0' !in f && Holds(arg, count, s) && s.posn == posn
    modifies arg
    ensures ok <==> ClaimField(s, ReadWidth(f, cp)).Some?
    ensures ok ==> var spec, c := ReadWidth(f, cp), ClaimField(s, ReadWidth(f, cp)).value;
                   && w == WidthField(spec, cp, c.index) && next == cp + |WidthText(spec)|
                   && posn1 == c.state.posn && Holds(arg1, count1, c.state)
    ensures arg1 == arg || fresh(arg1)
  {
    hide ReadPosn, Given, ClaimArg, PosnText, Holds;
    ok, w, next, posn1, arg1, count1 := true, NO_FIELD, cp, posn, arg, count;
    if CharAt(f, cp) == '*' {
      var index: Size;
      ok, index, next, posn1, arg1, count1 := ScanStar(f, cp + 1, arg, count, posn, s);
      w := Field(cp, cp + 1, index);
    } else if IsDigit(CharAt(f, cp)) {
      next := ScanDigits(f, cp);
      w := Field(cp, next, ARG_NONE);
    }
  }

  method ScanPrecision(f: string, cp: nat, arg: array<ArgType>, count: nat, posn: Size, ghost s: State)
    returns (ok: bool, p: Field, next: nat, posn1: Size, arg1: array<ArgType>, count1: nat)
    requires cp <= |f| && '\0' !in f && Holds(arg, count, s) && s.posn == posn
    modifies arg
    ensures ok <==> ClaimField(s, ReadPrecision(f, cp)).Some?
    ensures ok ==> var spec, c := ReadPrecision(f, cp), ClaimField(s, ReadPrecision(f, cp)).value;
                   && p == PrecisionField(spec, cp, c.index) && next == cp + |PrecisionText(spec)|
                   && posn1 == c.state.posn && Holds(arg1, count1, c.state)
    ensures arg1 == arg || fresh(arg1)
  {
    hide ReadPosn, Given, ClaimArg, PosnText, Holds;
    ok, p, next, posn1, arg1, count1 := true, NO_FIELD, cp, posn, arg, count;
    if CharAt(f, cp) == '.' {
      if CharAt(f, cp + 1) == '*' {
        var index: Size;
        ok, index, next, posn1, arg1, count1 := ScanStar(f, cp + 2, arg, count, posn, s);
        p := Field(cp, cp + 2, index);
      } else {
        next := ScanDigits(f, cp + 1);
        p := Field(cp, next, ARG_NONE);
      }
    }
  }

  lemma HoldsOk(arg: array<ArgType>, count: nat, s: State)
    requires Holds(arg, count, s)
    ensures StateOk(s)
  {
  }

  /** The size specifiers, the conversion and its argument. */
  method ParseConversion(f: string, cp: nat, dir: Directive, given: Size, arg: array<ArgType>, count: nat, posn: Size,
                         ghost s: State)
    returns (ok: bool, d: Directive, posn1: Size, arg1: array<ArgType>, count1: nat)
    requires cp <= |f| && '\0' !in f && dir.index == ARG_NONE && Holds(arg, count, s) && s.posn == posn
    requires StateOk(s)
    modifies arg
    ensures var e := RunEnd(f, cp, IsSize);
            var c, t := CharAt(f, e), ConversionType(CharAt(f, e), SizeFlags(f[cp..e]));
            && (ok <==> ClaimValue(s, given, t).Some?)
            && (ok ==> d == dir.(index := ClaimValue(s, given, t).value.index, conversion := StoredConversion(c),
                                 end := e + 1)
                       && posn1 == ClaimValue(s, given, t).value.state.posn
                       && Holds(arg1, count1, ClaimValue(s, given, t).value.state))
    ensures arg1 == arg || fresh(arg1)
  {
    hide Holds, ConversionType, RunEnd, ClaimArg, SizeFlags, StateOk;
    ok, d, posn1, arg1, count1 := true, dir, posn, arg, count;
    var sizes, end := ScanSizes(f, cp);
    var c := CharAt(f, end);
    match ConversionType(c, sizes) {
      case None => ok := false;
      case Some(t) =>
        if t != TypeNone {
          var index;
          ok, index, posn1, arg1, count1 := TakeArg(arg, count, posn, given, t, s);
          d := d.(index := index);
        }
        d := d.(conversion := StoredConversion(c), end := end + 1);
    }
  }

  /** The parse of a directive, step by step. */
  lemma DirectiveSteps(f: string, start: nat, s: State)
    requires start < |f| && StateOk(s)
    ensures var given, w := Given(ReadPosn(f, start + 1)), ClaimField(s, ReadWidth(f, WidthAt(f, start)));
            if given.None? || w.None? then DirectiveAt(f, start, s).None?
            else
              var p := ClaimField(w.value.state, ReadPrecision(f, PrecisionAt(f, start)));
              if p.None? then DirectiveAt(f, start, s).None?
              else
                var c, sizes := CharAt(f, ConversionAt(f, start)), f[SizesAt(f, start)..ConversionAt(f, start)];
                var a := ClaimValue(p.value.state, given.value, ConversionType(c, SizeFlags(sizes)));
                if a.None? then DirectiveAt(f, start, s).None?
                else DirectiveAt(f, start, s) ==
                     Some(Parsed(Directive(start, ConversionAt(f, start) + 1,
                                           FlagsOf(f[FlagsAt(f, start)..WidthAt(f, start)]),
                                           WidthField(ReadWidth(f, WidthAt(f, start)), WidthAt(f, start),
                                                      w.value.index),
                                           PrecisionField(ReadPrecision(f, PrecisionAt(f, start)),
                                                          PrecisionAt(f, start), p.value.index),
                                           StoredConversion(c), a.value.index), a.value.state))
  {
    hide ReadPosn, Given, ClaimField, ClaimValue, PosnText, ReadWidth, ReadPrecision, WidthField, PrecisionField,
      ConversionType, WidthText, PrecisionText, FlagsOf, RunEnd, Text, SpecOk, SizeFlags, StoredConversion, FieldOk,
      AllDigits, StateOk, CharAt;
  }

  method ParseDirective(f: string, start: nat, arg: array<ArgType>, count: nat, posn: Size, ghost s: State)
    returns (ok: bool, d: Directive, posn1: Size, arg1: array<ArgType>, count1: nat)
    requires start < |f| && '\0' !in f && Holds(arg, count, s) && s.posn == posn
    modifies arg
    ensures ok <==> DirectiveAt(f, start, s).Some?
    ensures ok ==> var p := DirectiveAt(f, start, s).value;
                   d == p.dir && posn1 == p.state.posn && Holds(arg1, count1, p.state)
    ensures arg1 == arg || fresh(arg1)
  {
    hide ReadPosn, Given, ClaimField, ClaimValue, PosnText, Holds, ReadWidth, ReadPrecision, WidthField, PrecisionField,
      ConversionType, WidthText, PrecisionText, FlagsOf, RunEnd, Text, SpecOk, SizeFlags, StoredConversion, FieldOk,
      AllDigits, StateOk, CharAt, DirectiveAt, ReadSpec;
    posn1, arg1, count1 := posn, arg, count;
    d := Directive(start, 0, Flags(false, false, false, false, false, false), NO_FIELD, NO_FIELD, '\0', ARG_NONE);
    HoldsOk(arg, count, s);
    DirectiveSteps(f, start, s);
    var cp, given;
    ok, given, cp := ScanPosition(f, start + 1);
    if !ok { return; }
    var flags;
    flags, cp := ScanFlags(f, cp);
    d := d.(flags := flags);
    var width, precision;
    ok, width, cp, posn1, arg1, count1 := ScanWidth(f, cp, arg1, count1, posn1, s);
    if !ok { return; }
    d := d.(width := width);
    ghost var s1 := ClaimField(s, ReadWidth(f, WidthAt(f, start))).value.state;
    ok, precision, cp, posn1, arg1, count1 := ScanPrecision(f, cp, arg1, count1, posn1, s1);
    if !ok { return; }
    d := d.(precision := precision);
    ghost var s2 := ClaimField(s1, ReadPrecision(f, PrecisionAt(f, start))).value.state;
    ok, d, posn1, arg1, count1 := ParseConversion(f, cp, d, given, arg1, count1, posn1, s2);
  }

  // ----- The whole format -----

  /** The first `count` entries of `dir` are `dirs`, there is room for one more, and `room` entries in all. */
  predicate HoldsDirs(dir: array<Directive>, count: nat, dirs: seq<Directive>, room: Size)
    reads dir
  {
    count == |dirs| < dir.Length == room && dir[..count] == dirs
  }

  /** The directive `d` is added, and the array is doubled when it is full. */
  method AddDirective(dir: array<Directive>, count: nat, d: Directive, ghost dirs: seq<Directive>, ghost room: Size)
    returns (ok: bool, memory: array<Directive>)
    requires HoldsDirs(dir, count, dirs, room)
    modifies dir
    ensures ok <==> !(count + 1 >= room && Overflow(XTimes(XTimes(room, 2), DIRECTIVE_SIZE)))
    ensures ok ==> HoldsDirs(memory, count + 1, dirs + [d], if count + 1 >= room then XTimes(room, 2) else room)
    ensures memory == dir || fresh(memory)
  {
    ok, memory := true, dir;
    dir[count] := d;
    if count + 1 >= dir.Length {
      var size := XTimes(dir.Length, 2);
      if Overflow(XTimes(size, DIRECTIVE_SIZE)) {
        return false, dir;
      }
      memory := new Directive[size];
      for i := 0 to count + 1
        invariant memory[..i] == (dirs + [d])[..i]
        invariant dir[..count + 1] == dirs + [d]
      {
        memory[i] := dir[i];
      }
    }
  }

  lemma MaxStep(dirs: seq<Directive>, d: Directive)
    ensures MaxWidth(dirs + [d]) == if MaxWidth(dirs) < FieldLength(d.width) then FieldLength(d.width)
            else MaxWidth(dirs)
    ensures MaxPrecision(dirs + [d]) ==
            if MaxPrecision(dirs) < FieldLength(d.precision) then FieldLength(d.precision) else MaxPrecision(dirs)
  {
    assert (dirs + [d])[..|dirs|] == dirs;
  }

  /** What `printf_parse` delivers for an accepted format: its directives, the end of the format behind them,
      the types of the arguments, and the longest width and precision. */
  predicate Delivers(f: string, r: Format, dir: array<Directive>, count: nat, arg: array<ArgType>, argCount: nat,
                     maxWidth: int, maxPrecision: int)
    reads dir, arg
  {
    && count == |r.dirs| < dir.Length && dir[..count] == r.dirs && dir[count].start == |f|
    && argCount == |r.args| <= arg.Length && arg[..argCount] == r.args
    && maxWidth == MaxWidth(r.dirs) && maxPrecision == MaxPrecision(r.dirs)
  }

  method ParseFormat(f: string)
    returns (ok: bool, dir: array<Directive>, count: nat, arg: array<ArgType>, argCount: nat,
             maxWidth: int, maxPrecision: int)
    requires '\0' !in f
    ensures ok <==> Parse(f).Some?
    ensures ok ==> Delivers(f, Parse(f).value, dir, count, arg, argCount, maxWidth, maxPrecision)
    ensures fresh(dir) && fresh(arg)
  {
    hide DirectiveAt, Holds, HoldsDirs, MaxWidth, MaxPrecision, StateOk;
    var cp, posn: Size := 0, 0;
    dir, count, maxWidth, maxPrecision := new Directive[1], 0, 0, 0;
    arg, argCount := new ArgType[0], 0;
    ok := true;
    ghost var s, dirs: seq<Directive>, room: Size := NO_ARGS, [], 1;
    Beginnings(dir, arg);
    while cp < |f|
      invariant cp <= |f| && fresh(dir) && fresh(arg)
      invariant StateOk(s) && Holds(arg, argCount, s) && s.posn == posn && HoldsDirs(dir, count, dirs, room)
      invariant Parse(f) == ParseFrom(f, cp, dirs, room, s)
      invariant maxWidth == MaxWidth(dirs) && maxPrecision == MaxPrecision(dirs)
      decreases |f| - cp
    {
      if f[cp] != '%' {
        cp := cp + 1;
      } else {
        var d;
        ghost var p := DirectiveAt(f, cp, s);
        ok, d, posn, arg, argCount := ParseDirective(f, cp, arg, argCount, posn, s);
        if !ok { return; }
        MaxStep(dirs, d);
        maxWidth := if maxWidth < d.width.end - d.width.start then d.width.end - d.width.start else maxWidth;
        maxPrecision := if maxPrecision < d.precision.end - d.precision.start
                        then d.precision.end - d.precision.start else maxPrecision;
        CountOk(dir, count, dirs, room);
        ok, dir := AddDirective(dir, count, d, dirs, room);
        if !ok { return; }
        room := if count + 1 >= room then XTimes(room, 2) else room;
        count, dirs, s, cp := count + 1, dirs + [d], p.value.state, d.end;
      }
    }
    CountOk(dir, count, dirs, room);
    Ending(f, arg, argCount, s);
    dir[count] := Directive(cp, cp, Flags(false, false, false, false, false, false), NO_FIELD, NO_FIELD, '\0',
                            ARG_NONE);
  }

  lemma Beginnings(dir: array<Directive>, arg: array<ArgType>)
    requires dir.Length == 1 && arg.Length == 0
    ensures Holds(arg, 0, NO_ARGS) && StateOk(NO_ARGS) && HoldsDirs(dir, 0, [], 1)
    ensures MaxWidth([]) == 0 && MaxPrecision([]) == 0
  {
  }

  lemma CountOk(dir: array<Directive>, count: nat, dirs: seq<Directive>, room: Size)
    requires HoldsDirs(dir, count, dirs, room)
    ensures count == |dirs| < dir.Length == room && dir[..count] == dirs
  {
  }

  lemma Ending(f: string, arg: array<ArgType>, count: nat, s: State)
    requires Holds(arg, count, s)
    ensures count == |s.args| <= arg.Length && arg[..count] == s.args
  {
  }
}
