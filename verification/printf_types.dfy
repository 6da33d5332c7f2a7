/** The letters of directives and the types of their arguments (section 7.19.6.1 of ISO/IEC 9899:1999). */
module PrintfTypes {
  import opened Options
  import opened XSize
  import opened PrintfParse
  import opened PrintfRebuild

  /** The type of the argument for conversion `c` with the size specifiers `sizes`. */
  function TypeFor(sizes: string, c: char): Option<ArgType> { ConversionType(c, SizeFlags(sizes)) }

  lemma SizeNumbers()
    ensures SizeFlags("") == 0 && SizeFlags("h") == 1 && SizeFlags("hh") == 3
    ensures SizeFlags("l") == 8 && SizeFlags("ll") == 16 && SizeFlags("L") == 4
    ensures SizeFlags("j") == 8 && SizeFlags("z") == 8 && SizeFlags("Z") == 8 && SizeFlags("t") == 8
  {
    assert "h"[..0] == "" && "hh"[..1] == "h" && "l"[..0] == "" && "ll"[..1] == "l" && "L"[..0] == "";
    assert "j"[..0] == "" && "z"[..0] == "" && "Z"[..0] == "" && "t"[..0] == "";
  }

  /** Signed integers. */
  lemma SignedTypes(c: char)
    requires c == 'd' || c == 'i'
    ensures TypeFor("", c) == Some(TypeInt) && TypeFor("h", c) == Some(TypeShort) && TypeFor("hh", c) == Some(TypeSChar)
    ensures TypeFor("l", c) == Some(TypeLong) && TypeFor("ll", c) == TypeFor("L", c) == Some(TypeLongLong)
    ensures TypeFor("j", c) == TypeFor("z", c) == TypeFor("Z", c) == TypeFor("t", c) == Some(TypeLong)
  {
    SizeNumbers();
    hide SizeFlags;
  }

  /** Unsigned integers. */
  lemma UnsignedTypes(c: char)
    requires c == 'o' || c == 'u' || c == 'x' || c == 'X'
    ensures TypeFor("", c) == Some(TypeUInt) && TypeFor("h", c) == Some(TypeUShort)
    ensures TypeFor("hh", c) == Some(TypeUChar) && TypeFor("l", c) == Some(TypeULong)
    ensures TypeFor("ll", c) == TypeFor("L", c) == Some(TypeULongLong)
    ensures TypeFor("j", c) == TypeFor("z", c) == TypeFor("Z", c) == TypeFor("t", c) == Some(TypeULong)
  {
    SizeNumbers();
    hide SizeFlags;
  }

  /** Numbers with a fraction: `L` makes them long, `l` does not. */
  lemma FloatTypes(c: char)
    requires c == 'f' || c == 'F' || c == 'e' || c == 'E' || c == 'g' || c == 'G' || c == 'a' || c == 'A'
    ensures TypeFor("", c) == TypeFor("l", c) == Some(TypeDouble)
    ensures TypeFor("L", c) == TypeFor("ll", c) == Some(TypeLongDouble)
  {
    SizeNumbers();
    hide SizeFlags;
  }

  /** Characters, strings and pointers. */
  lemma TextTypes()
    ensures TypeFor("", 'c') == Some(TypeChar) && TypeFor("l", 'c') == TypeFor("", 'C') == Some(TypeWideChar)
    ensures TypeFor("", 's') == Some(TypeString) && TypeFor("l", 's') == TypeFor("", 'S') == Some(TypeWideString)
    ensures TypeFor("", 'p') == Some(TypePointer) && TypeFor("", '%') == Some(TypeNone)
  {
    SizeNumbers();
    hide SizeFlags;
  }

  /** Where the length so far is stored. */
  lemma CountTypes()
    ensures TypeFor("", 'n') == Some(CountInt) && TypeFor("h", 'n') == Some(CountShort)
    ensures TypeFor("hh", 'n') == Some(CountSChar) && TypeFor("l", 'n') == Some(CountLong)
    ensures TypeFor("ll", 'n') == TypeFor("L", 'n') == Some(CountLongLong)
  {
    SizeNumbers();
    hide SizeFlags;
  }

  /** No other character converts anything. */
  lemma Conversions(c: char, flags: nat)
    ensures ConversionType(c, flags).Some? <==>
            || c == 'd' || c == 'i' || c == 'o' || c == 'u' || c == 'x' || c == 'X' || c == 'f' || c == 'F' || c == 'e'
            || c == 'E' || c == 'g' || c == 'G' || c == 'a' || c == 'A' || c == 'c' || c == 'C' || c == 's' || c == 'S'
            || c == 'p' || c == 'n' || c == '%'
  {
  }

  /** The six flags, each rebuilt if and only if it was given, and the seven letters of size specifiers. */
  lemma Letters(s: string, c: char)
    ensures c in FlagText(FlagsOf(s)) <==> c in s && IsFlag(c)
    ensures IsFlag(c) <==> exists fl :: c in FlagText(fl)
    ensures IsSize(c) <==> c == 'h' || c == 'l' || c == 'L' || c == 'j' || c == 'z' || c == 'Z' || c == 't'
  {
    hide FlagText;
    FlagIn(FlagsOf(s), c);
    var all := Flags(true, true, true, true, true, true);
    FlagIn(all, c);
    forall fl | c in FlagText(fl) ensures IsFlag(c) { FlagIn(fl, c); }
  }

  /** The end of a rebuilt directive: the sizes of the type and the conversion, with capitals for wide characters
      written out. */
  lemma RebuiltEnds()
    ensures SizeText(TypeInt) == SizeText(TypeShort) == SizeText(TypeSChar) == SizeText(TypeDouble) == ""
    ensures SizeText(TypeUInt) == SizeText(TypeUShort) == SizeText(TypeUChar) == SizeText(TypeString) == ""
    ensures SizeText(TypeChar) == SizeText(TypePointer) == ""
    ensures SizeText(TypeLong) == SizeText(TypeULong) == "l"
    ensures SizeText(TypeLongLong) == SizeText(TypeULongLong) == "ll"
    ensures SizeText(TypeLongDouble) == "L"
    ensures SizeText(TypeWideChar) + [StoredConversion('C')] == SizeText(TypeWideChar) + [StoredConversion('c')] == "lc"
    ensures SizeText(TypeWideString) + [StoredConversion('S')] == SizeText(TypeWideString) + [StoredConversion('s')]
            == "ls"
    ensures forall c :: c != 'C' && c != 'S' ==> StoredConversion(c) == c
  {
  }

  /** A position takes its own slot and leaves the others to be taken in turn; without one the next slot is taken. */
  lemma ClaimMeaning(s: State, given: Size, t: ArgType)
    requires StateOk(s) && ClaimArg(s, given, t).Some?
    ensures var c := ClaimArg(s, given, t).value;
            if given != ARG_NONE then c.index == given && c.state.posn == s.posn
            else c.index == s.posn && c.state.posn == s.posn + 1
  {
  }

  /** The array of arguments doubles, or grows to the index if that is more. */
  lemma RoomMeaning(room: Size, n: Size)
    ensures n < room ==> RoomFor(room, n) == room
    ensures n >= room ==> RoomFor(room, n) == Min(if 2 * room > n then 2 * room else n + 1, SIZE_MAX)
  {
  }

  /** An argument is refused exactly if its slot has another type, or if the array would be too large: with 32 bytes for
      an argument, its size must stay below SIZE_MAX. */
  lemma RefusedExactly(s: State, n: Size, t: ArgType)
    requires StateOk(s)
    ensures Register(s, n, t) == None <==>
            || (n >= s.room && 32 * RoomFor(s.room, n) >= SIZE_MAX)
            || (n < |s.args| && s.args[n] != TypeNone && s.args[n] != t)
  {
    hide RoomFor;
    TooLarge(RoomFor(s.room, n));
  }

  lemma TooLarge(room: Size)
    ensures Overflow(XTimes(room, ARGUMENT_SIZE)) <==> 32 * room >= SIZE_MAX
  {
  }

  /** The maximal lengths are attained. */
  lemma {:induction false} MaxAttained(dirs: seq<Directive>)
    ensures MaxWidth(dirs) == 0 || exists i :: 0 <= i < |dirs| && FieldLength(dirs[i].width) == MaxWidth(dirs)
    ensures MaxPrecision(dirs) == 0
            || exists i :: 0 <= i < |dirs| && FieldLength(dirs[i].precision) == MaxPrecision(dirs)
  {
    if dirs != [] {
      var t := dirs[..|dirs| - 1];
      MaxAttained(t);
      assert forall i :: 0 <= i < |t| ==> t[i] == dirs[i];
    }
  }
}
