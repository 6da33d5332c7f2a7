/** `check_mask`, `check_mask2` and `check_mask2_uncase`: matching a string with a mask. */
module MaskMatch {

  /** The three matchers: only `*` is special, `?` as well, and letters match in either case. */
  datatype Style = Stars | AnyChars | Uncase

  function ToLower(c: char): char { if 'A' <= c <= 'Z' then (c as int + 32) as char else c }

  /** Whether an ordinary mask character stands for `c`. */
  predicate Same(style: Style, c: char, m: char) {
    if style.Uncase? then ToLower(c) == ToLower(m) else c == m
  }

  // ----- The language of a mask -----

  /** What one mask character stands for: `*` for one or more characters, `?` for exactly one. */
  predicate Fits(style: Style, piece: string, m: char) {
    if m == '*' then |piece| >= 1
    else if m == '?' && !style.Stars? then |piece| == 1
    else |piece| == 1 && Same(style, piece[0], m)
  }

  function Concat(pieces: seq<string>): string {
    if pieces == [] then "" else pieces[0] + Concat(pieces[1..])
  }

  predicate Splits(style: Style, src: string, mask: string, pieces: seq<string>) {
    |pieces| == |mask| && Concat(pieces) == src && forall i :: 0 <= i < |mask| ==> Fits(style, pieces[i], mask[i])
  }

  /** The string can be cut into pieces, one for each mask character. */
  ghost predicate InLanguage(style: Style, src: string, mask: string) {
    exists pieces :: Splits(style, src, mask, pieces)
  }

  lemma EmptyMask(style: Style, src: string)
    ensures InLanguage(style, src, "") <==> src == ""
  {
    if src == "" { assert Splits(style, src, "", []); }
  }

  lemma Prepend(style: Style, piece: string, rest: string, mask: string)
    requires mask != "" && Fits(style, piece, mask[0]) && InLanguage(style, rest, mask[1..])
    ensures InLanguage(style, piece + rest, mask)
  {
    var pieces :| Splits(style, rest, mask[1..], pieces);
    var all := [piece] + pieces;
    assert all[1..] == pieces;
    forall i | 0 <= i < |mask| ensures Fits(style, all[i], mask[i]) {
      if i > 0 { assert Fits(style, pieces[i - 1], mask[1..][i - 1]); }
    }
    assert Splits(style, piece + rest, mask, all);
  }

  lemma FirstPiece(style: Style, src: string, mask: string) returns (n: nat)
    requires mask != "" && InLanguage(style, src, mask)
    ensures 1 <= n <= |src| && Fits(style, src[..n], mask[0]) && InLanguage(style, src[n..], mask[1..])
  {
    var pieces :| Splits(style, src, mask, pieces);
    n := |pieces[0]|;
    assert Fits(style, pieces[0], mask[0]);
    assert src == pieces[0] + Concat(pieces[1..]);
    forall i | 0 <= i < |mask[1..]| ensures Fits(style, pieces[1..][i], mask[1..][i]) {
      assert Fits(style, pieces[i + 1], mask[i + 1]);
    }
    assert Splits(style, src[n..], mask[1..], pieces[1..]);
  }

  /** A `*` at the front takes one character or more. */
  ghost predicate Later(style: Style, src: string, mask: string) {
    exists n :: 0 <= n <= |src| && InLanguage(style, src[n..], mask)
  }

  lemma StarStep(style: Style, src: string, mask: string)
    requires mask != "" && mask[0] == '*'
    ensures InLanguage(style, src, mask) <==> src != "" && Later(style, src[1..], mask[1..])
  {
    if InLanguage(style, src, mask) {
      var n := FirstPiece(style, src, mask);
      assert src[n..] == src[1..][n - 1..];
    }
    if src != "" && Later(style, src[1..], mask[1..]) {
      var n :| 0 <= n <= |src[1..]| && InLanguage(style, src[1..][n..], mask[1..]);
      assert src[1..][n..] == src[n + 1..] && src == src[..n + 1] + src[n + 1..];
      Prepend(style, src[..n + 1], src[n + 1..], mask);
    }
  }

  lemma LaterStep(style: Style, src: string, mask: string)
    requires src != ""
    ensures Later(style, src, mask) <==> InLanguage(style, src, mask) || Later(style, src[1..], mask)
  {
    assert src[0..] == src;
    if Later(style, src, mask) {
      var n :| 0 <= n <= |src| && InLanguage(style, src[n..], mask);
      if n > 0 { assert src[1..][n - 1..] == src[n..]; }
    }
    if Later(style, src[1..], mask) {
      var n :| 0 <= n <= |src[1..]| && InLanguage(style, src[1..][n..], mask);
      assert src[1..][n..] == src[n + 1..];
    }
  }

  lemma LaterEnd(style: Style, mask: string)
    ensures Later(style, "", mask) <==> InLanguage(style, "", mask)
  {
    assert ""[0..] == "";
  }

  /** Any other mask character takes exactly one character. */
  lemma CharStep(style: Style, src: string, mask: string)
    requires mask != "" && mask[0] != '*'
    ensures InLanguage(style, src, mask) <==>
            src != "" && Fits(style, src[..1], mask[0]) && InLanguage(style, src[1..], mask[1..])
  {
    if InLanguage(style, src, mask) {
      var n := FirstPiece(style, src, mask);
      assert n == 1;
    }
    if src != "" && Fits(style, src[..1], mask[0]) && InLanguage(style, src[1..], mask[1..]) {
      assert src == src[..1] + src[1..];
      Prepend(style, src[..1], src[1..], mask);
    }
  }

  // ----- The matcher -----

  /** The three matchers, which differ only in what `style` says. The pointers `s` and `m` run to the ends of the
      strings; behind a `*` the rest of the mask is tried at each place that is left. */
  method CheckMask(style: Style, src: string, mask: string) returns (r: bool)
    requires '\0' !in src && '\0' !in mask
    ensures r <==> InLanguage(style, src, mask)
    decreases |mask|
  {
    hide InLanguage, Later, Fits;
    var m, s := 0, 0;
    assert src[0..] == src && mask[0..] == mask;
    while m < |mask|
      invariant m <= |mask| && s <= |src|
      invariant InLanguage(style, src, mask) <==> InLanguage(style, src[s..], mask[m..])
    {
      assert mask[m..][1..] == mask[m + 1..];
      if mask[m] == '*' {
        StarStep(style, src[s..], mask[m..]);
        if s == |src| { return false; }
        assert src[s..][1..] == src[s + 1..];
        m := m + 1;
        s := s + 1;
        while s < |src|
          invariant s <= |src|
          invariant InLanguage(style, src, mask) <==> Later(style, src[s..], mask[m..])
        {
          LaterStep(style, src[s..], mask[m..]);
          assert src[s..][1..] == src[s + 1..];
          var here := CheckMask(style, src[s..], mask[m..]);
          if here { return true; }
          s := s + 1;
        }
        LaterEnd(style, mask[m..]);
        assert src[s..] == "";
      } else {
        CharStep(style, src[s..], mask[m..]);
        if s == |src| { return false; }
        FitsOne(style, src[s..], mask[m]);
        if !(mask[m] == '?' && !style.Stars?) && !Same(style, src[s], mask[m]) { return false; }
        assert src[s..][1..] == src[s + 1..];
        m := m + 1;
        s := s + 1;
      }
    }
    EmptyMask(style, src[s..]);
    assert mask[m..] == "";
    r := s == |src|;
  }

  lemma FitsOne(style: Style, src: string, m: char)
    requires src != "" && m != '*'
    ensures Fits(style, src[..1], m) <==> (m == '?' && !style.Stars?) || Same(style, src[0], m)
  {
  }

  // ----- Masks without special characters -----

  /** A mask of ordinary characters stands for itself, unless case is ignored. */
  lemma {:induction false} LiteralMask(style: Style, src: string, mask: string)
    requires !style.Uncase? && '*' !in mask && (style.AnyChars? ==> '?' !in mask)
    ensures InLanguage(style, src, mask) <==> src == mask
    decreases |mask|
  {
    hide InLanguage, Fits;
    if mask == "" {
      EmptyMask(style, src);
    } else {
      CharStep(style, src, mask);
      if src != "" {
        LiteralMask(style, src[1..], mask[1..]);
        FitsOne(style, src, mask[0]);
        assert src == [src[0]] + src[1..] && mask == [mask[0]] + mask[1..];
      }
    }
  }

  /** Question marks alone stand for any string of their number, except for the first matcher. */
  lemma {:induction false} AnyMask(style: Style, src: string, mask: string)
    requires !style.Stars? && forall i :: 0 <= i < |mask| ==> mask[i] == '?'
    ensures InLanguage(style, src, mask) <==> |src| == |mask|
    decreases |mask|
  {
    hide InLanguage, Fits;
    if mask == "" {
      EmptyMask(style, src);
    } else {
      CharStep(style, src, mask);
      if src != "" {
        AnyMask(style, src[1..], mask[1..]);
        FitsOne(style, src, mask[0]);
      }
    }
  }

  predicate IsLetter(c: char) { 'a' <= c <= 'z' || 'A' <= c <= 'Z' }

  /** Ignoring case, a character stands for itself and a letter for its other case, which is 32 away. */
  lemma SameLetter(c: char, m: char)
    ensures Same(Uncase, c, m) <==>
            c == m || (IsLetter(c) && IsLetter(m) && (c as int == m as int + 32 || m as int == c as int + 32))
  {
  }

  // ----- Upper and lower case -----

  function Lower(s: string): (r: string)
    ensures |r| == |s| && forall i :: 0 <= i < |s| ==> r[i] == ToLower(s[i])
  {
    seq(|s|, i requires 0 <= i < |s| => ToLower(s[i]))
  }

  lemma LowerSlices(s: string, n: nat)
    requires n <= |s|
    ensures Lower(s)[..n] == Lower(s[..n]) && Lower(s)[n..] == Lower(s[n..])
  {
  }

  lemma FitsLower(piece: string, m: char)
    ensures Fits(Uncase, piece, m) <==> Fits(AnyChars, Lower(piece), ToLower(m))
  {
  }

  /** The form that ignores case is the other one on the strings in lower case. */
  lemma {:induction false} UncaseIsLower(src: string, mask: string)
    ensures InLanguage(Uncase, src, mask) <==> InLanguage(AnyChars, Lower(src), Lower(mask))
    decreases |mask|
  {
    hide InLanguage, Fits;
    if mask == "" {
      EmptyMask(Uncase, src);
      EmptyMask(AnyChars, Lower(src));
      assert Lower(mask) == "";
    } else {
      LowerSlices(mask, 1);
      if InLanguage(Uncase, src, mask) {
        var n := FirstPiece(Uncase, src, mask);
        FitsLower(src[..n], mask[0]);
        UncaseIsLower(src[n..], mask[1..]);
        LowerSlices(src, n);
        assert Lower(src) == Lower(src)[..n] + Lower(src)[n..];
        Prepend(AnyChars, Lower(src[..n]), Lower(src[n..]), Lower(mask));
      }
      if InLanguage(AnyChars, Lower(src), Lower(mask)) {
        var n := FirstPiece(AnyChars, Lower(src), Lower(mask));
        LowerSlices(src, n);
        FitsLower(src[..n], mask[0]);
        UncaseIsLower(src[n..], mask[1..]);
        assert src == src[..n] + src[n..];
        Prepend(Uncase, src[..n], src[n..], mask);
      }
    }
  }
}
