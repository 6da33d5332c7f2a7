/** `hexed_string` and `unhexed_string`: percent encoding by rewriting a string in place
    (section 2.1 of RFC 3986). */
module Percent {

  predicate Bytes(s: string) { forall k :: 0 <= k < |s| ==> s[k] as int < 256 }

  // ----- Hexadecimal digits -----

  /** `convert_from_hex` of one character. */
  function FromHex(what: char): int {
    if '0' <= what <= '9' then what as int - '0' as int
    else if 'a' <= what <= 'f' then 10 + what as int - 'a' as int
    else if 'A' <= what <= 'F' then 10 + what as int - 'A' as int
    else -1
  }

  /** `convert_from_hex` of two characters: 1000 if they are not both digits. */
  function FromHexPair(a: char, b: char): int {
    if FromHex(a) < 0 || FromHex(b) < 0 then 1000 else 16 * FromHex(a) + FromHex(b)
  }

  function ToHexDigit(d: int): char
    requires 0 <= d < 16
  {
    if d < 10 then ('0' as int + d) as char else ('A' as int + d - 10) as char
  }

  /** `convert_to_hex`. */
  function ToHex(what: char): string
    requires what as int < 256
  {
    [ToHexDigit(what as int / 16), ToHexDigit(what as int % 16)]
  }

  /** The digits are those of hexadecimal numbers: ten, and six letters of either case. */
  lemma HexDigits(c: char)
    ensures FromHex(c) >= 0 <==> '0' <= c <= '9' || 'a' <= c <= 'f' || 'A' <= c <= 'F'
    ensures FromHex(c) >= 0 ==> FromHex(c) < 16 && (ToHexDigit(FromHex(c)) == c
                                                    || ToHexDigit(FromHex(c)) as int + 32 == c as int)
  {
  }

  /** They are written in order and as capitals. */
  lemma WrittenDigits(d: int)
    requires 0 <= d < 16
    ensures "0123456789ABCDEF"[d] == ToHexDigit(d)
  {
  }

  /** The value of two digits counts the first one sixteen times. */
  lemma HexPair(a: char, b: char)
    ensures FromHex(a) >= 0 && FromHex(b) >= 0 ==> FromHexPair(a, b) == 16 * FromHex(a) + FromHex(b) < 256
    ensures FromHex(a) < 0 || FromHex(b) < 0 ==> FromHexPair(a, b) >= 256
  {
  }

  lemma ToHexBack(c: char)
    requires c as int < 256
    ensures FromHexPair(ToHex(c)[0], ToHex(c)[1]) == c as int
  {
  }

  // ----- Encoding -----

  /** The value of a byte as a signed `char`. */
  function Signed(c: char): int { if c as int < 128 then c as int else c as int - 256 }

  /** Whether `index` finds `c` in a string; it also finds the terminating null character. */
  predicate Finds(chars: string, c: char) { c == '\0' || c in chars }

  predicate Encoded(c: char) {
    && (Signed(c) < '/' as int || Signed(c) > 'z' as int || Finds(":<>~% ", c))
    && !Finds(".-+&", c)
  }

  /** What is left alone: letters, digits, `/`, `.`, `-`, `+`, `&`, `;`, `=`, `?`, `@`, brackets, backslash, `^`, `_`,
      the backquote, and the null character. */
  lemma LeftAlone(c: char)
    requires c as int < 256
    ensures !Encoded(c) <==>
            || 'a' <= c <= 'z' || 'A' <= c <= 'Z' || '0' <= c <= '9'
            || c == '/' || c == '.' || c == '-' || c == '+' || c == '&' || c == ';' || c == '=' || c == '?' || c == '@'
            || c == '[' || c == '\\' || c == ']' || c == '^' || c == '_' || c == '`' || c == '\0'
  {
    hide *;
    LeftAloneIs(c);
  }

  lemma LeftAloneIs(c: char)
    requires c as int < 256
    ensures !Encoded(c) <==>
            || '/' == c || '0' <= c <= '9' || c == ';' || '=' == c || '?' <= c <= 'z'
            || c == '.' || c == '-' || c == '+' || c == '&' || c == '\0'
  {
  }

  function HexedChar(c: char): string
    requires c as int < 256
  {
    if Encoded(c) then "%" + ToHex(c) else [c]
  }

  function Hexed(s: string): string
    requires Bytes(s)
  {
    if s == "" then "" else HexedChar(s[0]) + Hexed(s[1..])
  }

  // ----- Decoding as the standard has it -----

  predicate Escape(s: string) { |s| >= 3 && s[0] == '%' && FromHexPair(s[1], s[2]) < 256 }

  function Decode(s: string): string {
    if s == "" then ""
    else if Escape(s) then [FromHexPair(s[1], s[2]) as char] + Decode(s[3..])
    else [s[0]] + Decode(s[1..])
  }

  // ----- Decoding as it is done -----

  /** What the loop makes of the rest of the string. A decoded byte becomes a null-terminated string, which is
      empty for `%00`; and the character that is then in the place of the byte is not looked at. */
  function Unhexed(s: string): string
    decreases |s|
  {
    if s == "" then ""
    else if !Escape(s) then [s[0]] + Unhexed(s[1..])
    else
      var b := FromHexPair(s[1], s[2]);
      if b != 0 then [b as char] + Unhexed(s[3..])
      else if |s| == 3 then ""
      else [s[3]] + Unhexed(s[4..])
  }

  predicate NullEscape(s: string) { Escape(s) && FromHexPair(s[1], s[2]) == 0 }

  /** `%00` occurs in the string. */
  predicate HasNullEscape(s: string) { exists k :: 0 <= k <= |s| && NullEscape(s[k..]) }

  lemma NullEscapeIs(s: string)
    ensures NullEscape(s) <==> |s| >= 3 && s[..3] == "%00"
  {
  }

  lemma NullEscapeLater(s: string, n: nat)
    requires n <= |s| && forall k :: 0 <= k < n ==> !NullEscape(s[k..])
    ensures HasNullEscape(s) <==> HasNullEscape(s[n..])
  {
    forall k | n <= k <= |s| ensures s[n..][k - n..] == s[k..] {
    }
    if HasNullEscape(s) {
      var k :| 0 <= k <= |s| && NullEscape(s[k..]);
      assert NullEscape(s[n..][k - n..]);
    }
    if HasNullEscape(s[n..]) {
      var k :| 0 <= k <= |s[n..]| && NullEscape(s[n..][k..]);
      assert s[n..][k..] == s[n + k..];
    }
  }

  function Nulls(s: string): nat { if s == "" then 0 else Nulls(s[1..]) + if s[0] == '\0' then 1 else 0 }

  /** The loop drops a null character for every `%00` that it meets, and adds none. */
  lemma {:induction false} UnhexedNulls(s: string)
    ensures Nulls(Unhexed(s)) <= Nulls(s)
    decreases |s|
  {
    if s == "" {
    } else if !Escape(s) {
      UnhexedNulls(s[1..]);
      assert Unhexed(s)[1..] == Unhexed(s[1..]);
    } else if FromHexPair(s[1], s[2]) != 0 {
      UnhexedNulls(s[3..]);
      assert Unhexed(s)[1..] == Unhexed(s[3..]);
      NullsDrop(s, 3);
    } else if |s| > 3 {
      UnhexedNulls(s[4..]);
      assert Unhexed(s)[1..] == Unhexed(s[4..]);
      NullsDrop(s, 3);
      assert s[3..][1..] == s[4..];
    }
  }

  lemma {:induction false} NullsDrop(s: string, n: nat)
    requires n <= |s|
    ensures Nulls(s[n..]) <= Nulls(s)
  {
    if n > 0 {
      NullsDrop(s[1..], n - 1);
      assert s[1..][n - 1..] == s[n..];
    } else {
      assert s[0..] == s;
    }
  }

  /** The standard keeps every null character and adds one for every `%00`. */
  lemma {:induction false} DecodeNulls(s: string)
    ensures Nulls(Decode(s)) >= Nulls(s)
    ensures HasNullEscape(s) ==> Nulls(Decode(s)) > Nulls(s)
    decreases |s|
  {
    if s == "" {
      assert !HasNullEscape(s);
    } else if !Escape(s) {
      DecodeNulls(s[1..]);
      assert Decode(s)[1..] == Decode(s[1..]);
      assert s[0..] == s;
      NullEscapeLater(s, 1);
    } else {
      DecodeNulls(s[3..]);
      assert Decode(s)[1..] == Decode(s[3..]);
      assert Nulls(s) == Nulls(s[3..]) by { EscapeHasNoNull(s); }
      if FromHexPair(s[1], s[2]) != 0 {
        forall k | 0 <= k < 3 ensures !NullEscape(s[k..]) { assert s[0..] == s && s[k..][0] == s[k]; }
        NullEscapeLater(s, 3);
      }
    }
  }

  lemma EscapeHasNoNull(s: string)
    requires Escape(s)
    ensures Nulls(s) == Nulls(s[3..])
  {
    assert s[1..][1..] == s[2..] && s[2..][1..] == s[3..];
    assert Nulls(s) == Nulls(s[1..]) && Nulls(s[1..]) == Nulls(s[2..]) && Nulls(s[2..]) == Nulls(s[3..]);
  }

  lemma {:induction false} UnhexedDecodes(s: string)
    requires !HasNullEscape(s)
    ensures Unhexed(s) == Decode(s)
    decreases |s|
  {
    if s == "" {
    } else {
      assert s[0..] == s;
      assert !NullEscape(s[0..]);
      if !Escape(s) {
        NullEscapeLater(s, 1);
        UnhexedDecodes(s[1..]);
      } else {
        forall k | 0 <= k < 3 ensures !NullEscape(s[k..]) { assert s[k..][0] == s[k]; }
        NullEscapeLater(s, 3);
        UnhexedDecodes(s[3..]);
      }
    }
  }

  /** The loop decodes as the standard says exactly when `%00` does not occur. */
  lemma UnhexedExact(s: string)
    ensures Unhexed(s) == Decode(s) <==> !HasNullEscape(s)
  {
    if HasNullEscape(s) {
      UnhexedNulls(s);
      DecodeNulls(s);
    } else {
      UnhexedDecodes(s);
    }
  }

  /** After a `%00` even an ordinary escape is left as it is. */
  lemma NullEscapeFails()
    ensures Unhexed("%00%41") == "%41" && Decode("%00%41") == ['\0', 'A']
  {
    var s := "%00%41";
    assert s[3] == '%' && s[4..] == "41" && s[3..] == "%41";
    assert "41"[1..] == "1" && "1"[1..] == "";
    assert "%41"[3..] == "";
  }

  // ----- What the loop reads -----

  /** The loop reads behind the null character at the end of the string: at a `%` that is the last character,
      if a `%00` has been dropped, because the length is then counted one too high. */
  predicate Behind(s: string, dropped: bool)
    decreases |s|
  {
    if s == "" then false
    else if !Escape(s) then (dropped && s == "%") || Behind(s[1..], dropped)
    else if FromHexPair(s[1], s[2]) != 0 then Behind(s[3..], dropped)
    else |s| > 3 && Behind(s[4..], true)
  }

  predicate ReadsBehind(s: string) { Behind(s, false) }

  /** `%00` stands at `i`. */
  predicate NullAt(t: string, i: int) { 0 <= i && i + 3 <= |t| && t[i] == '%' && t[i + 1] == '0' && t[i + 2] == '0' }

  /** How many `%00` stand in a row at the end. */
  function NullRun(t: string): nat {
    if NullAt(t, |t| - 3) then 1 + NullRun(t[..|t| - 3]) else 0
  }

  predicate IsRun(t: string, k: nat) {
    3 * k <= |t| && (forall j :: 1 <= j <= k ==> NullAt(t, |t| - 3 * j)) && !NullAt(t, |t| - 3 * (k + 1))
  }

  lemma {:induction false} NullRunIs(t: string)
    ensures IsRun(t, NullRun(t))
  {
    if NullAt(t, |t| - 3) {
      var u := t[..|t| - 3];
      NullRunIs(u);
      forall j | 1 <= j <= NullRun(t) ensures NullAt(t, |t| - 3 * j) {
        if j > 1 { assert NullAt(u, |u| - 3 * (j - 1)); }
      }
    }
  }

  lemma IsRunUnique(t: string, k: nat, l: nat)
    requires IsRun(t, k) && IsRun(t, l)
    ensures k == l
  {
    assert k < l ==> NullAt(t, |t| - 3 * (k + 1));
    assert l < k ==> NullAt(t, |t| - 3 * (l + 1));
  }

  lemma NullAtLater(t: string, n: nat, i: int)
    requires n <= |t| && i >= 0
    ensures NullAt(t[n..], i) <==> NullAt(t, i + n)
  {
  }

  /** Characters before the row, if they do not belong to it, do not matter. */
  lemma NullRunLater(t: string, n: nat, k: nat)
    requires n <= |t| && 3 * k <= |t| - n && IsRun(t, k)
    ensures NullRun(t[n..]) == k
  {
    hide NullAt, NullRun;
    var u := t[n..];
    forall j | 1 <= j <= k ensures NullAt(u, |u| - 3 * j) { NullAtLater(t, n, |u| - 3 * j); }
    if |u| - 3 * (k + 1) < 0 { NullNegative(u, |u| - 3 * (k + 1)); } else { NullAtLater(t, n, |u| - 3 * (k + 1)); }
    NullRunIs(u);
    IsRunUnique(u, k, NullRun(u));
  }

  lemma NullNegative(t: string, i: int)
    requires i < 0
    ensures !NullAt(t, i)
  {
  }

  /** A character that begins no escape, or an escape of another byte, is before the row. */
  lemma NullRunSkips(t: string, n: nat)
    requires n <= |t| && (forall i :: 0 <= i < n ==> !NullAt(t, i))
    ensures NullRun(t[n..]) == NullRun(t)
  {
    NullRunIs(t);
    var k := NullRun(t);
    assert k > 0 ==> NullAt(t, |t| - 3 * k);
    NullRunLater(t, n, k);
  }

  /** A `%00` and the character behind it: when they belong to the row, there are two `%00` less in it. */
  lemma NullRunPair(t: string)
    requires |t| >= 4 && NullAt(t, 0)
    ensures NullRun(t[4..]) % 2 == NullRun(t) % 2
  {
    NullRunIs(t);
    var k := NullRun(t);
    var p := |t| - 3 * k;
    assert k > 0 ==> NullAt(t, p);
    assert p != 3;
    if p == 0 {
      NullRunAll(t, k);
    } else {
      NullRunLater(t, 4, k);
    }
  }

  lemma NullRunAll(t: string, k: nat)
    requires |t| == 3 * k >= 4 && IsRun(t, k)
    ensures NullRun(t[4..]) == k - 2
  {
    hide NullAt, NullRun;
    var u := t[4..];
    forall j | 1 <= j <= k - 2 ensures NullAt(u, |u| - 3 * j) {
      assert NullAt(t, |t| - 3 * j);
      NullAtLater(t, 4, |u| - 3 * j);
    }
    NullNegative(u, |u| - 3 * (k - 1));
    NullRunIs(u);
    IsRunUnique(u, k - 2, NullRun(u));
  }

  predicate EndsPercent(s: string) { s != "" && s[|s| - 1] == '%' }

  /** The `%` at the end is looked at unless the `%00` before it is dropped; in a row every second one is. */
  predicate LastSeen(s: string) { EndsPercent(s) && NullRun(s[..|s| - 1]) % 2 == 0 }

  lemma LastSeenSkips(s: string, n: nat)
    requires n < |s| && forall i :: 0 <= i < n ==> !NullAt(s, i)
    ensures LastSeen(s[n..]) <==> LastSeen(s)
  {
    var t := s[..|s| - 1];
    forall i | 0 <= i < n ensures !NullAt(t, i) { assert !NullAt(s, i); }
    NullRunSkips(t, n);
    assert s[n..][..|s| - n - 1] == t[n..];
  }

  lemma LastSeenPair(s: string)
    requires NullAt(s, 0)
    ensures if |s| > 4 then LastSeen(s[4..]) <==> LastSeen(s) else !LastSeen(s)
  {
    var t := s[..|s| - 1];
    if |s| > 4 {
      NullRunPair(t);
      assert s[4..][..|s| - 5] == t[4..];
    } else if |s| == 4 {
      assert NullAt(t, 0) && t[..0] == "";
      assert NullRun(t) == 1;
    }
  }

  lemma EscapeIs(s: string)
    ensures NullAt(s, 0) <==> NullEscape(s)
    ensures Escape(s) ==> s[1] != '%' && s[2] != '%'
  {
  }

  lemma HasNullEscapeNow(s: string)
    requires NullEscape(s)
    ensures HasNullEscape(s)
  {
    assert s[0..] == s;
  }

  lemma {:induction false} BehindIff(s: string, dropped: bool)
    ensures Behind(s, dropped) <==> (dropped || HasNullEscape(s)) && LastSeen(s)
    decreases |s|
  {
    hide NullAt, NullRun, HasNullEscape, FromHexPair, LastSeen;
    if s == "" {
      NothingSeen(s);
    } else {
      EscapeIs(s);
      if !Escape(s) {
        NoNullBefore(s, 1);
        BehindIff(s[1..], dropped);
        if |s| == 1 { OneCharSeen(s); NothingSeen(s[1..]); } else { LastSeenSkips(s, 1); }
      } else if FromHexPair(s[1], s[2]) != 0 {
        NoNullBefore(s, 3);
        BehindIff(s[3..], dropped);
        if |s| == 3 { EscapeNotSeen(s); NothingSeen(s[3..]); } else { LastSeenSkips(s, 3); }
      } else {
        HasNullEscapeNow(s);
        LastSeenPair(s);
        if |s| > 3 { BehindIff(s[4..], true); }
        if |s| == 4 { NothingSeen(s[4..]); }
      }
    }
  }

  lemma NothingSeen(s: string)
    requires s == ""
    ensures !LastSeen(s) && !HasNullEscape(s)
  {
  }

  lemma OneCharSeen(s: string)
    requires |s| == 1
    ensures LastSeen(s) <==> s == "%"
    ensures !HasNullEscape(s)
  {
    assert s[..0] == "" && !NullAt("", -3);
  }

  lemma EscapeNotSeen(s: string)
    requires |s| == 3 && Escape(s)
    ensures !LastSeen(s)
  {
  }

  /** No `%00` begins inside an escape of another byte, or at a character that begins no escape. */
  lemma NoNullBefore(s: string, n: nat)
    requires s != "" && !NullEscape(s) && (n == 1 || (n == 3 && Escape(s)))
    ensures n <= |s| && (forall i :: 0 <= i < n ==> !NullAt(s, i))
    ensures HasNullEscape(s) <==> HasNullEscape(s[n..])
  {
    hide FromHexPair;
    EscapeIs(s);
    forall i | 0 <= i < n ensures !NullAt(s, i) && !NullEscape(s[i..]) {
      assert s[0..] == s && s[i..][0] == s[i];
    }
    NullEscapeLater(s, n);
  }

  /** Exactly when the loop reads behind the end: there is a `%00`, the last character is `%`, and an even
      number of `%00` stand directly before it. */
  lemma ReadsBehindIff(s: string)
    ensures ReadsBehind(s) <==>
            HasNullEscape(s) && s != "" && s[|s| - 1] == '%' && NullRun(s[..|s| - 1]) % 2 == 0
  {
    hide Behind, HasNullEscape, NullRun;
    BehindIff(s, false);
  }

  // ----- The round trip -----

  lemma EncodedNotNull(c: char)
    requires c as int < 256
    ensures Encoded(c) ==> c != '\0'
    ensures c == '%' ==> Encoded(c)
  {
  }

  /** Decoding undoes the encoding, for every string of bytes. */
  lemma {:induction false} RoundTrip(s: string)
    requires Bytes(s)
    ensures Unhexed(Hexed(s)) == s && Decode(Hexed(s)) == s
  {
    if s != "" {
      RoundTrip(s[1..]);
      ToHexBack(s[0]);
      EncodedNotNull(s[0]);
      var h, rest := Hexed(s), Hexed(s[1..]);
      if Encoded(s[0]) {
        assert h[1] == ToHex(s[0])[0] && h[2] == ToHex(s[0])[1] && h[3..] == rest;
      } else {
        assert h[1..] == rest;
      }
    }
  }

  // ----- The loops -----

  lemma {:induction false} HexedSnoc(s: string, c: char)
    requires Bytes(s) && c as int < 256
    ensures Bytes(s + [c]) && Hexed(s + [c]) == Hexed(s) + HexedChar(c)
  {
    hide HexedChar;
    if s == "" {
      assert s + [c] == [c] && [c][1..] == "";
      assert Hexed([c]) == HexedChar(c) + Hexed("");
    } else {
      HexedSnoc(s[1..], c);
      assert (s + [c])[1..] == s[1..] + [c];
      assert HexedChar(s[0]) + (Hexed(s[1..]) + HexedChar(c)) == HexedChar(s[0]) + Hexed(s[1..]) + HexedChar(c);
    }
  }

  /** Character `i` of `str` at `pos` is replaced, and what is before it is encoded. */
  lemma HexedReplaces(str: string, i: nat, rval: string, pos: nat)
    requires Bytes(str) && i < |str| && pos < |rval|
    requires rval[..pos] == Hexed(str[..i]) && rval[pos..] == str[i..]
    ensures rval[pos] == str[i]
    ensures var r := rval[..pos] + HexedChar(str[i]) + rval[pos + 1..];
            var end := pos + |HexedChar(str[i])|;
            r[..end] == Hexed(str[..i + 1]) && r[end..] == str[i + 1..]
  {
    hide HexedChar, Hexed;
    assert rval[pos..][0] == str[i..][0];
    assert str[..i + 1] == str[..i] + [str[i]];
    HexedSnoc(str[..i], str[i]);
    assert rval[pos + 1..] == rval[pos..][1..] == str[i..][1..] == str[i + 1..];
  }

  lemma HexedLength(c: char)
    requires c as int < 256
    ensures if Encoded(c) then HexedChar(c) == "%" + ToHex(c) && |HexedChar(c)| == 3 else HexedChar(c) == [c]
  {
    hide ToHexDigit;
  }

  method HexedString(str: string) returns (rval: string)
    requires Bytes(str)
    ensures rval == Hexed(str)
  {
    hide HexedChar, Hexed, Encoded;
    rval := str;
    var len, pos := |rval|, 0;
    ghost var i := 0;
    NothingHexed(str);
    while pos < len
      invariant i <= |str| && pos <= len == |rval|
      invariant rval[..pos] == Hexed(str[..i]) && rval[pos..] == str[i..]
      decreases |str| - i
    {
      var r := rval[pos];
      HexedReplaces(str, i, rval, pos);
      HexedLength(r);
      if Encoded(r) {
        var buf := "%" + ToHex(r);
        rval := rval[..pos] + buf + rval[pos + 1..];
        pos := pos + 2;
        len := len + 2;
      } else {
        assert rval == rval[..pos] + [r] + rval[pos + 1..];
      }
      pos := pos + 1;
      i := i + 1;
    }
    assert str[..i] == str && rval[..pos] == rval;
  }

  lemma NothingHexed(str: string)
    ensures Hexed("") == "" && str[..0] == "" && str[0..] == str
  {
  }

  /** `find ('%', pos)`: -1 stands for `npos`. */
  method FindPercent(s: string, pos: nat) returns (r: int)
    ensures r == -1 ==> forall k :: pos <= k < |s| ==> s[k] != '%'
    ensures r != -1 ==> pos <= r < |s| && s[r] == '%' && forall k :: pos <= k < r ==> s[k] != '%'
  {
    var k := pos;
    while k < |s|
      invariant pos <= k && forall i :: pos <= i < k && i < |s| ==> s[i] != '%'
    {
      if s[k] == '%' { return k; }
      k := k + 1;
    }
    r := -1;
  }

  lemma UnhexedStep(s: string)
    requires s != "" && s[0] != '%'
    ensures Unhexed(s) == [s[0]] + Unhexed(s[1..])
  {
  }

  lemma {:induction false} UnhexedSkips(s: string, n: nat)
    requires n <= |s| && forall k :: 0 <= k < n ==> s[k] != '%'
    ensures Unhexed(s) == s[..n] + Unhexed(s[n..])
  {
    hide Unhexed;
    if n == 0 {
      assert s[0..] == s && s[..0] + Unhexed(s) == Unhexed(s);
    } else {
      var t := s[1..];
      UnhexedStep(s);
      UnhexedSkips(t, n - 1);
      assert t[n - 1..] == s[n..] && s[..n] == [s[0]] + t[..n - 1];
      assert [s[0]] + (t[..n - 1] + Unhexed(s[n..])) == [s[0]] + t[..n - 1] + Unhexed(s[n..]);
    }
  }

  /** A character of a string, its null character, and what happens to be behind it. */
  function StringAt(s: string, i: nat, garbage: char): char {
    if i < |s| then s[i] else if i == |s| then '\0' else garbage
  }

  /** What the string will be, when the part before `pos` is done. */
  function Outcome(rval: string, pos: nat): string {
    if pos <= |rval| then rval[..pos] + Unhexed(rval[pos..]) else rval
  }

  lemma OutcomeSkips(rval: string, pos: nat, p: nat)
    requires pos <= p <= |rval| && forall k :: pos <= k < p ==> rval[k] != '%'
    ensures Outcome(rval, pos) == Outcome(rval, p)
  {
    hide Unhexed;
    var rest := rval[pos..];
    assert rest[..p - pos] == rval[pos..p];
    UnhexedSkips(rest, p - pos);
    assert rest[p - pos..] == rval[p..];
    assert rval[..pos] + rval[pos..p] == rval[..p];
    assert rval[..pos] + (rval[pos..p] + Unhexed(rval[p..])) == rval[..pos] + rval[pos..p] + Unhexed(rval[p..]);
  }

  /** Nothing is decoded at `p`. */
  lemma OutcomeKeeps(rval: string, p: nat)
    requires p < |rval| && !Escape(rval[p..])
    ensures Outcome(rval, p) == Outcome(rval, p + 1)
  {
    var rest := rval[p..];
    assert rest[1..] == rval[p + 1..] && rval[..p] + [rest[0]] == rval[..p + 1];
  }

  /** The three characters at `p` are replaced, and the scan goes on behind `p`. */
  lemma OutcomeReplaces(rval: string, p: nat)
    requires p < |rval| && Escape(rval[p..])
    ensures p + 3 <= |rval|
    ensures var b := FromHexPair(rval[p + 1], rval[p + 2]);
            var buf := if b == 0 then "" else [b as char];
            Outcome(rval, p) == Outcome(rval[..p] + buf + rval[p + 3..], p + 1)
  {
    var rest, b := rval[p..], FromHexPair(rval[p + 1], rval[p + 2]);
    assert rest[1] == rval[p + 1] && rest[2] == rval[p + 2] && rest[3..] == rval[p + 3..];
    var buf := if b == 0 then "" else [b as char];
    var r := rval[..p] + buf + rval[p + 3..];
    if b != 0 {
      assert r[..p + 1] == rval[..p] + buf && r[p + 1..] == rest[3..];
    } else if |rest| > 3 {
      assert r[..p + 1] == rval[..p] + [rest[3]] && r[p + 1..] == rest[4..];
    } else {
      assert r == rval[..p] + "";
    }
  }

  /** Whether the part from `pos` on makes the loop read behind the end. */
  predicate BehindFrom(rval: string, pos: nat, dropped: bool) { pos <= |rval| && Behind(rval[pos..], dropped) }

  lemma {:induction false} BehindSkips(s: string, n: nat, dropped: bool)
    requires n <= |s| && forall k :: 0 <= k < n ==> s[k] != '%'
    ensures Behind(s, dropped) <==> Behind(s[n..], dropped)
  {
    hide FromHexPair;
    if n == 0 {
      assert s[0..] == s;
    } else {
      BehindSkips(s[1..], n - 1, dropped);
      assert s[1..][n - 1..] == s[n..];
    }
  }

  lemma BehindFromSkips(rval: string, pos: nat, p: nat, dropped: bool)
    requires pos <= p <= |rval| && forall k :: pos <= k < p ==> rval[k] != '%'
    ensures BehindFrom(rval, pos, dropped) <==> BehindFrom(rval, p, dropped)
  {
    hide Behind;
    BehindSkips(rval[pos..], p - pos, dropped);
    assert rval[pos..][p - pos..] == rval[p..];
  }

  lemma BehindKeeps(rval: string, p: nat, dropped: bool)
    requires p < |rval| && rval[p] == '%' && !Escape(rval[p..])
    ensures BehindFrom(rval, p, dropped) <==> (dropped && p + 1 == |rval|) || BehindFrom(rval, p + 1, dropped)
  {
    hide FromHexPair;
    var rest := rval[p..];
    assert rest[1..] == rval[p + 1..] && (|rest| == 1 <==> rest == "%");
  }

  lemma PairRange(a: char, b: char)
    ensures 0 <= FromHexPair(a, b) < 256 || FromHexPair(a, b) == 1000
  {
  }

  lemma BehindReplaces(rval: string, p: nat, dropped: bool)
    requires p + 3 <= |rval| && Escape(rval[p..])
    ensures var b := FromHexPair(rval[p + 1], rval[p + 2]);
            var buf := if b == 0 then "" else [b as char];
            BehindFrom(rval, p, dropped) <==> BehindFrom(rval[..p] + buf + rval[p + 3..], p + 1, dropped || b == 0)
  {
    hide FromHexPair;
    var rest, b := rval[p..], FromHexPair(rval[p + 1], rval[p + 2]);
    PairRange(rval[p + 1], rval[p + 2]);
    var buf := if b == 0 then "" else [b as char];
    var r := rval[..p] + buf + rval[p + 3..];
    assert rest[1] == rval[p + 1] && rest[2] == rval[p + 2];
    if b != 0 {
      assert r[p + 1..] == rest[3..];
    } else if |rest| > 3 {
      assert r[p + 1..] == rest[4..];
    } else {
      assert |r| == p;
    }
  }

  /** What the loop keeps: `behind` says whether it has read behind the end. */
  predicate Progress(str: string, rval: string, pos: nat, len: nat, behind: bool) {
    && Outcome(rval, pos) == Unhexed(str) && len >= |rval|
    && (behind || BehindFrom(rval, pos, len > |rval|) <==> ReadsBehind(str))
  }

  lemma Started(str: string)
    ensures Progress(str, str, 0, |str|, false)
  {
    assert str[0..] == str;
  }

  lemma Skipped(str: string, rval: string, pos: nat, len: nat, behind: bool, p: nat)
    requires Progress(str, rval, pos, len, behind) && pos <= p <= |rval| && forall k :: pos <= k < p ==> rval[k] != '%'
    ensures Progress(str, rval, p, len, behind)
  {
    hide Outcome, BehindFrom;
    OutcomeSkips(rval, pos, p);
    BehindFromSkips(rval, pos, p, len > |rval|);
  }

  lemma Kept(str: string, rval: string, p: nat, len: nat, behind: bool)
    requires Progress(str, rval, p, len, behind) && p < |rval| && rval[p] == '%' && !Escape(rval[p..])
    ensures Progress(str, rval, p + 1, len, behind || (len >= p + 2 && p + 2 > |rval|))
  {
    hide Outcome, BehindFrom, Escape;
    OutcomeKeeps(rval, p);
    BehindKeeps(rval, p, len > |rval|);
  }

  lemma Replaced(str: string, rval: string, p: nat, len: nat, behind: bool)
    requires Progress(str, rval, p, len, behind) && p + 3 <= |rval| && Escape(rval[p..])
    ensures var b := FromHexPair(rval[p + 1], rval[p + 2]);
            var buf := if b == 0 then "" else [b as char];
            len >= 2 && Progress(str, rval[..p] + buf + rval[p + 3..], p + 1, len - 2, behind)
  {
    hide Outcome, BehindFrom, Escape, FromHexPair;
    OutcomeReplaces(rval, p);
    BehindReplaces(rval, p, len > |rval|);
  }

  /** Nothing is left to be decoded. */
  lemma Ended(str: string, rval: string, pos: nat, len: nat, behind: bool)
    requires Progress(str, rval, pos, len, behind) && forall k :: pos <= k < |rval| ==> rval[k] != '%'
    ensures rval == Unhexed(str) && (behind <==> ReadsBehind(str))
  {
    hide Unhexed, ReadsBehind;
    if pos <= |rval| { Skipped(str, rval, pos, len, behind, |rval|); }
    assert rval[|rval|..] == "";
    NothingLeft(len > |rval|);
    assert rval[..|rval|] + "" == rval;
  }

  lemma NothingLeft(dropped: bool)
    ensures Unhexed("") == "" && !Behind("", dropped)
  {
  }

  /** Decodes in place. Whatever is behind the end of the string, the result is the same. */
  method UnhexedString(str: string, garbage: char) returns (rval: string, ghost behind: bool)
    ensures rval == Unhexed(str)
    ensures behind <==> ReadsBehind(str)
  {
    hide Unhexed, FromHexPair, ReadsBehind, Progress, Escape;
    var pos: nat, len: nat := 0, |str|;
    rval, behind := str, false;
    Started(str);
    while true
      invariant Progress(str, rval, pos, len, behind)
      decreases |rval| + 1 - pos
    {
      var p := FindPercent(rval, pos);
      if p == -1 {
        Ended(str, rval, pos, len, behind);
        return;
      }
      Skipped(str, rval, pos, len, behind, p);
      pos := p;
      LenEnough(str, rval, pos, len, behind);
      if len < pos + 1 { break; }
      EscapeAt(rval, pos, garbage);
      if len >= pos + 2 {
        var b := FromHexPair(StringAt(rval, pos + 1, garbage), StringAt(rval, pos + 2, garbage));
        if b < 256 {
          Replaced(str, rval, pos, len, behind);
          var buf := if b == 0 then "" else [b as char];
          rval := rval[..pos] + buf + rval[pos + 3..];
          len := len - 2;
        } else {
          Kept(str, rval, pos, len, behind);
          behind := behind || pos + 2 > |rval|;
        }
      } else {
        Kept(str, rval, pos, len, behind);
      }
      pos := pos + 1;
    }
  }

  lemma LenEnough(str: string, rval: string, pos: nat, len: nat, behind: bool)
    requires Progress(str, rval, pos, len, behind) && pos < |rval|
    ensures len >= pos + 1
    ensures len < pos + 2 ==> |rval| < pos + 2
  {
  }

  /** The test on the two characters behind a `%` tells whether it begins an escape. */
  lemma EscapeAt(rval: string, p: nat, garbage: char)
    requires p < |rval| && rval[p] == '%'
    ensures var b := FromHexPair(StringAt(rval, p + 1, garbage), StringAt(rval, p + 2, garbage));
            && b >= 0 && (Escape(rval[p..]) <==> b < 256)
            && (b < 256 ==> p + 3 <= |rval| && b == FromHexPair(rval[p + 1], rval[p + 2]))
    ensures |rval| < p + 2 ==> !Escape(rval[p..])
  {
    assert FromHex('\0') < 0;
  }
}
