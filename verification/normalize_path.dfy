/** `normalize_path`: a path is tidied in place. */
module NormalizePath {
  import opened CStrings

  // ----- Paths as components -----

  /** Where the first slash is, or the length. */
  function FirstSlash(s: string): (n: nat)
    ensures n <= |s| && (forall k :: 0 <= k < n ==> s[k] != '/') && (n < |s| ==> s[n] == '/')
  {
    if s == "" || s[0] == '/' then 0 else 1 + FirstSlash(s[1..])
  }

  lemma FirstSlashIs(s: string, n: nat)
    requires n <= |s| && (forall k :: 0 <= k < n ==> s[k] != '/') && (n < |s| ==> s[n] == '/')
    ensures FirstSlash(s) == n
  {
  }

  /** The components between the slashes. */
  function Split(s: string): (cs: seq<string>)
    ensures cs != []
  {
    if FirstSlash(s) == |s| then [s] else [s[..FirstSlash(s)]] + Split(s[FirstSlash(s) + 1..])
  }

  lemma SplitStep(s: string)
    ensures var n := FirstSlash(s);
            && Split(s)[0] == s[..n] && Split(s)[1..] == (if n < |s| then Split(s[n + 1..]) else [])
            && (n == |s| ==> Split(s) == [s])
            && (n < |s| ==> Split(s) == [s[..n]] + Split(s[n + 1..]))
  {
    hide FirstSlash;
    if FirstSlash(s) == |s| { assert s[..|s|] == s; }
  }

  /** The first component and the ones behind it, each with a slash before it. */
  datatype Path = Path(first: string, rest: seq<string>)

  function RestText(rest: seq<string>): string {
    if rest == [] then "" else RestText(rest[..|rest| - 1]) + "/" + rest[|rest| - 1]
  }

  function PathText(p: Path): string { p.first + RestText(p.rest) }

  /** One component more: empty ones and `.` are dropped, `..` takes the last component away, and with no
      component left it empties the first one. */
  function Step(p: Path, c: string): Path {
    if c == "" || c == "." then p
    else if c == ".." then
      if p.rest == [] then Path("", []) else Path(p.first, p.rest[..|p.rest| - 1])
    else Path(p.first, p.rest + [c])
  }

  function Walk(p: Path, cs: seq<string>): Path
    decreases |cs|
  {
    if cs == [] then p else Walk(Step(p, cs[0]), cs[1..])
  }

  /** A slash at the end is kept. */
  function Trailing(cs: seq<string>): string { if cs != [] && cs[|cs| - 1] == "" then "/" else "" }

  /** The path with its first component as it is and the others walked through. */
  function Normalized(s: string): string {
    var cs := Split(s);
    PathText(Walk(Path(cs[0], []), cs[1..])) + Trailing(cs[1..])
  }

  predicate PathOk(p: Path) { '/' !in p.first && forall i :: 0 <= i < |p.rest| ==> '/' !in p.rest[i] }

  // ----- What is still to come -----

  /** The result when `p` is written and `text`, which begins with a slash or is empty, is not yet read. */
  function Tail(p: Path, text: string): string {
    if text == "" then PathText(p)
    else var cs := Split(text[1..]); PathText(Walk(p, cs)) + Trailing(cs)
  }

  /** The last component, or the first when it is the only one, with more text behind it. */
  function Extend(p: Path, text: string): Path {
    if p.rest == [] then Path(p.first + text, [])
    else Path(p.first, p.rest[..|p.rest| - 1] + [p.rest[|p.rest| - 1] + text])
  }

  /** The result when the last component of `p` goes on in `text`. */
  function Future(p: Path, text: string): string {
    var n := FirstSlash(text);
    Tail(Extend(p, text[..n]), text[n..])
  }

  lemma RestTextSnoc(rest: seq<string>, c: string)
    ensures RestText(rest + [c]) == RestText(rest) + "/" + c
  {
    assert (rest + [c])[..|rest|] == rest;
  }

  lemma ExtendText(p: Path, text: string)
    ensures PathText(Extend(p, text)) == PathText(p) + text
  {
    if p.rest != [] {
      var q, l := p.rest[..|p.rest| - 1], p.rest[|p.rest| - 1];
      assert p.rest == q + [l];
      RestTextSnoc(q, l);
      RestTextSnoc(q, l + text);
      assert RestText(q) + "/" + (l + text) == RestText(q) + "/" + l + text;
      assert p.first + (RestText(p.rest) + text) == p.first + RestText(p.rest) + text;
    }
  }

  lemma ExtendTwice(p: Path, a: string, b: string)
    ensures Extend(Extend(p, a), b) == Extend(p, a + b)
  {
    if p.rest == [] {
      assert p.first + a + b == p.first + (a + b);
    } else {
      var l := p.rest[|p.rest| - 1];
      assert l + a + b == l + (a + b);
    }
  }

  lemma ExtendNothing(p: Path)
    ensures Extend(p, "") == p
  {
    if p.rest == [] {
      assert p.first + "" == p.first;
    } else {
      assert p.rest[|p.rest| - 1] + "" == p.rest[|p.rest| - 1];
    }
  }

  /** At the beginning the first component is empty. */
  lemma Beginning(s: string)
    ensures Future(Path("", []), s) == Normalized(s)
  {
    hide FirstSlash, Split;
    SplitStep(s);
    var n := FirstSlash(s);
    assert "" + s[..n] == s[..n];
    assert n < |s| ==> s[n..][1..] == s[n + 1..];
    assert PathText(Path(s[..n], [])) + "" == PathText(Path(s[..n], []));
  }

  /** An ordinary character belongs to the current component. */
  lemma FutureChar(p: Path, text: string)
    requires text != "" && text[0] != '/'
    ensures Future(p, text) == Future(Extend(p, [text[0]]), text[1..])
  {
    var n := FirstSlash(text[1..]);
    assert text[..n + 1] == [text[0]] + text[1..][..n] && text[1..][n..] == text[n + 1..];
    ExtendTwice(p, [text[0]], text[1..][..n]);
  }

  /** At a slash the component is complete. */
  lemma FutureSlash(p: Path, text: string)
    requires text == "" || text[0] == '/'
    ensures Future(p, text) == Tail(p, text)
  {
    assert text[..0] == "" && text[0..] == text;
    ExtendNothing(p);
  }

  /** The component behind a slash. */
  function Component(text: string): string
    requires text != ""
  {
    text[1..1 + FirstSlash(text[1..])]
  }

  /** What is behind this component. */
  function Behind(text: string): string
    requires text != ""
  {
    text[1 + FirstSlash(text[1..])..]
  }

  lemma TailStep(p: Path, text: string)
    requires text != "" && !(Component(text) == "" && Behind(text) == "")
    ensures Tail(p, text) == Tail(Step(p, Component(text)), Behind(text))
  {
    hide FirstSlash, Split, Step;
    var t := text[1..];
    var n := FirstSlash(t);
    var c, cs := Component(text), Split(t);
    SplitStep(t);
    assert t[..n] == c;
    if n < |t| {
      assert Behind(text)[1..] == t[n + 1..];
    } else {
      assert Behind(text) == "" && c != "";
      WalkOne(p, c);
      assert PathText(Step(p, c)) + "" == PathText(Step(p, c));
    }
  }

  lemma WalkOne(p: Path, c: string)
    ensures Walk(p, [c]) == Step(p, c)
  {
    assert Walk(p, [c]) == Walk(Step(p, c), []);
  }

  /** A component that is kept is begun by its slash; so is the empty component of a slash at the end. */
  lemma TailKeeps(p: Path, text: string)
    requires text != "" && text[0] == '/'
    requires Component(text) == "" ==> Behind(text) == ""
    requires Component(text) != "." && Component(text) != ".."
    ensures Tail(p, text) == Future(Path(p.first, p.rest + [""]), text[1..])
  {
    hide FirstSlash, Split, Tail, Step, Extend;
    var t, q := text[1..], Path(p.first, p.rest + [""]);
    var n := FirstSlash(t);
    var c := Component(text);
    assert t[..n] == c && t[n..] == Behind(text);
    ExtendEmpty(p, c);
    if c == "" {
      SlashKept(p, text);
    } else {
      TailStep(p, text);
      StepKept(p, c);
    }
  }

  lemma ExtendEmpty(p: Path, c: string)
    ensures Extend(Path(p.first, p.rest + [""]), c) == Path(p.first, p.rest + [c])
  {
    var q := Path(p.first, p.rest + [""]);
    assert q.rest[..|p.rest|] == p.rest && "" + c == c;
  }

  lemma StepKept(p: Path, c: string)
    requires c != "" && c != "." && c != ".."
    ensures Step(p, c) == Path(p.first, p.rest + [c])
  {
  }

  /** The slash at the end. */
  lemma SlashKept(p: Path, text: string)
    requires text != "" && Component(text) == "" && Behind(text) == ""
    ensures Tail(p, text) == Tail(Path(p.first, p.rest + [""]), "")
  {
    hide FirstSlash, Split;
    var t := text[1..];
    SplitStep(t);
    WalkOne(p, "");
    RestTextSnoc(p.rest, "");
    assert RestText(p.rest) + "/" + "" == RestText(p.rest) + "/";
    assert p.first + (RestText(p.rest) + "/") == p.first + RestText(p.rest) + "/";
  }

  // ----- The loop -----

  /** What the switch on `a[1]`, `a[2]` and `a[3]` decides. */
  datatype Next = Slash | Dot | DotDot | Other

  function NextIs(s: string, a: nat): Next
    requires a < |s|
  {
    if CharAt(s, a + 1) == '/' then Slash
    else if CharAt(s, a + 1) != '.' then Other
    else if CharAt(s, a + 2) == '/' || a + 2 == |s| then Dot
    else if CharAt(s, a + 2) == '.' && (CharAt(s, a + 3) == '/' || a + 3 == |s|) then DotDot
    else Other
  }

  lemma ComponentIs(text: string, n: nat)
    requires 1 + n <= |text| && (forall k :: 1 <= k < 1 + n ==> text[k] != '/')
             && (1 + n < |text| ==> text[1 + n] == '/')
    ensures Component(text) == text[1..1 + n] && Behind(text) == text[1 + n..]
  {
    FirstSlashIs(text[1..], n);
  }

  lemma ComponentChars(text: string)
    requires text != ""
    ensures var c := Component(text);
            && 1 + |c| <= |text| && (1 + |c| < |text| ==> text[1 + |c|] == '/')
            && (|c| >= 1 ==> c[0] == text[1]) && (|c| >= 2 ==> c[1] == text[2])
            && Behind(text) == text[1 + |c|..]
  {
  }

  /** The switch sees the component behind the slash. */
  lemma NextComponent(s: string, a: nat)
    requires a < |s| && s[a] == '/' && '\0' !in s
    ensures match NextIs(s, a) {
              case Slash => a + 1 < |s| && Component(s[a..]) == "" && Behind(s[a..]) == s[a + 1..]
              case Dot => a + 2 <= |s| && Component(s[a..]) == "." && Behind(s[a..]) == s[a + 2..]
              case DotDot => a + 3 <= |s| && Component(s[a..]) == ".." && Behind(s[a..]) == s[a + 3..]
              case Other => Component(s[a..]) != "." && Component(s[a..]) != ".."
                            && (Component(s[a..]) == "" ==> Behind(s[a..]) == "")
            }
  {
    var text := s[a..];
    var c := Component(text);
    match NextIs(s, a)
    case Slash => ComponentIs(text, 0);
    case Dot =>
      ComponentIs(text, 1);
      assert text[1..2] == [text[1]];
    case DotDot =>
      ComponentIs(text, 2);
      assert text[1..3] == [text[1], text[2]];
    case Other => ComponentChars(text);
  }

  /** What is left of the text when the last component is taken away. */
  lemma PopText(p: Path)
    requires PathOk(p)
    ensures var w, q := PathText(p), PathText(Step(p, ".."));
            && |q| <= |w| && w[..|q|] == q && PathOk(Step(p, ".."))
            && (forall k :: |q| < k < |w| ==> w[k] != '/')
            && (|q| < |w| && |q| > 0 ==> w[|q|] == '/')
            && (|q| > 0 ==> |q| < |w|)
  {
    if p.rest != [] {
      var r, l := p.rest[..|p.rest| - 1], p.rest[|p.rest| - 1];
      assert PathText(p) == p.first + (RestText(r) + "/" + l);
      assert PathText(p) == PathText(Path(p.first, r)) + "/" + l;
    }
  }

  method PopComponent(src: array<char>, b: nat, ghost p: Path) returns (b1: nat)
    requires b <= src.Length && PathOk(p) && src[..b] == PathText(p)
    ensures b1 == |PathText(Step(p, ".."))| <= b && src[..b1] == PathText(Step(p, ".."))
  {
    hide PathText, Step, PathOk;
    PopText(p);
    ghost var w, q := PathText(p), PathText(Step(p, ".."));
    b1 := b;
    if b1 > 0 { b1 := b1 - 1; }
    while b1 > 0 && src[b1] != '/'
      invariant |q| <= b1 <= b && (b1 < b || b == 0)
    {
      assert src[b1] == w[b1];
      b1 := b1 - 1;
    }
    assert b1 < b ==> src[b1] == w[b1];
    assert src[..b1] == src[..b][..b1];
  }

  lemma ExtendOk(p: Path, c: char)
    requires PathOk(p) && c != '/'
    ensures PathOk(Extend(p, [c]))
  {
  }

  lemma PushText(p: Path)
    requires PathOk(p)
    ensures PathText(Path(p.first, p.rest + [""])) == PathText(p) + "/" && PathOk(Path(p.first, p.rest + [""]))
  {
    RestTextSnoc(p.rest, "");
    assert RestText(p.rest) + "/" + "" == RestText(p.rest) + "/";
    assert p.first + (RestText(p.rest) + "/") == p.first + RestText(p.rest) + "/";
  }

  /** The unread part of the buffer is as it was. */
  predicate Unread(src: array<char>, a: nat, s: string)
    reads src
  {
    a <= |s| < src.Length && src[a..|s|] == s[a..] && src[|s|] == '\0'
  }

  lemma UnreadAt(src: array<char>, a: nat, s: string, k: nat)
    requires Unread(src, a, s) && a + k <= |s|
    ensures src[a + k] == CharAt(s, a + k)
  {
    assert a + k < |s| ==> src[a..|s|][k] == s[a..][k];
  }

  lemma UnreadLater(src: array<char>, a: nat, s: string, k: nat)
    requires Unread(src, a, s) && a + k <= |s|
    ensures Unread(src, a + k, s)
  {
    assert src[a + k..|s|] == src[a..|s|][k..] && s[a + k..] == s[a..][k..];
  }

  /** The part before `b` is the text of `p`, the part from `a` on is unread, and the result is known. */
  ghost predicate Invariant(src: array<char>, a: nat, b: nat, s: string, p: Path, result: string, atSlash: bool)
    reads src
  {
    && Unread(src, a, s) && b <= a && PathOk(p) && src[..b] == PathText(p) && '\0' !in src[..b]
    && result == (if atSlash then Tail(p, s[a..]) else Future(p, s[a..]))
  }

  lemma StepDrops(p: Path)
    ensures Step(p, "") == p && Step(p, ".") == p
  {
  }

  /** The unread text goes on behind a component that is dropped. */
  lemma Dropped(src: array<char>, a: nat, b: nat, s: string, p: Path, result: string, k: nat, c: string)
    requires Invariant(src, a, b, s, p, result, true) && a < |s| && a + k <= |s|
    requires Component(s[a..]) == c && Behind(s[a..]) == s[a + k..] && (c == "" ==> a + k < |s|)
    ensures Unread(src, a + k, s) && result == Tail(Step(p, c), s[a + k..])
  {
    hide PathText, PathOk, Step, Tail, Component, Behind;
    TailStep(p, s[a..]);
    UnreadLater(src, a, s, k);
  }

  /** The switch on what is behind the slash at `a`. */
  method SkipComponent(src: array<char>, a: nat, b: nat, ghost s: string, ghost p: Path, ghost result: string)
    returns (need_exit: bool, a1: nat, b1: nat, ghost p1: Path)
    requires Invariant(src, a, b, s, p, result, true) && a < |s| && s[a] == '/' && '\0' !in s
    ensures Invariant(src, a1, b1, s, p1, result, true)
    ensures if need_exit then a1 == a && NextIs(s, a) == Other else a < a1 && (a1 < |s| ==> s[a1] == '/')
  {
    hide PathText, PathOk, Step, Tail, Future, Component, Behind;
    need_exit, a1, b1, p1 := false, a, b, p;
    NextComponent(s, a);
    StepDrops(p);
    UnreadAt(src, a, s, 1);
    if src[a + 1] == '/' {
      Dropped(src, a, b, s, p, result, 1, "");
      a1 := a + 1;
      return;
    }
    if src[a + 1] == '.' {
      UnreadAt(src, a, s, 2);
      if src[a + 2] == '/' || src[a + 2] == '\0' {
        Dropped(src, a, b, s, p, result, 2, ".");
        a1 := a + 2;
        return;
      }
      if src[a + 2] == '.' {
        UnreadAt(src, a, s, 3);
        if src[a + 3] == '/' || src[a + 3] == '\0' {
          Dropped(src, a, b, s, p, result, 3, "..");
          b1 := PopComponent(src, b, p);
          PopText(p);
          p1 := Step(p, "..");
          a1 := a + 3;
          return;
        }
      }
    }
    need_exit := true;
  }

  /** The inner loop: looks behind the slash at `a`, over and over, until a component comes that is kept. */
  method SkipComponents(src: array<char>, a: nat, b: nat, ghost s: string, ghost p: Path, ghost result: string)
    returns (a1: nat, b1: nat, ghost p1: Path)
    requires Invariant(src, a, b, s, p, result, true) && a < |s| && s[a] == '/' && '\0' !in s
    ensures Invariant(src, a1, b1, s, p1, result, true) && a <= a1 <= |s|
    ensures a1 < |s| ==> s[a1] == '/' && NextIs(s, a1) == Other
    ensures a1 < src.Length
  {
    hide PathText, PathOk, Tail, Future, NextIs;
    a1, b1, p1 := a, b, p;
    var need_exit := false;
    while !need_exit
      invariant Invariant(src, a1, b1, s, p1, result, true) && a <= a1 < |s| && s[a1] == '/'
      invariant need_exit ==> NextIs(s, a1) == Other
      decreases |s| - a1, !need_exit
    {
      need_exit, a1, b1, p1 := SkipComponent(src, a1, b1, s, p1, result);
      UnreadAt(src, a1, s, 0);
      if src[a1] == '\0' { break; }
    }
  }

  /** The slash before a component that is kept is copied. */
  lemma SlashCopied(s: string, a: nat, p: Path)
    requires a < |s| && s[a] == '/' && '\0' !in s && NextIs(s, a) == Other
    ensures Tail(p, s[a..]) == Future(Path(p.first, p.rest + [""]), s[a + 1..])
  {
    hide NextIs, Tail, Future, Component, Behind;
    NextComponent(s, a);
    TailKeeps(p, s[a..]);
    assert s[a..][1..] == s[a + 1..];
  }

  lemma CharCopied(s: string, a: nat, p: Path)
    requires a < |s| && s[a] != '/'
    ensures Future(p, s[a..]) == Future(Extend(p, [s[a]]), s[a + 1..])
  {
    hide Future, Extend;
    FutureChar(p, s[a..]);
    assert s[a..][1..] == s[a + 1..];
  }

  lemma Started(src: array<char>, s: string)
    requires '\0' in src[..] && s == CString(src[..])
    ensures |s| < src.Length && '\0' !in s && Invariant(src, 0, 0, s, Path("", []), Normalized(s), false)
  {
    assert s[0..] == s && src[0..|s|] == s;
    Beginning(s);
  }

  lemma InvariantBounds(src: array<char>, a: nat, b: nat, s: string, p: Path, result: string, atSlash: bool)
    requires Invariant(src, a, b, s, p, result, atSlash)
    ensures b <= a <= |s| < src.Length && src[a] == CharAt(s, a)
  {
    hide Tail, Future, PathText, PathOk;
    UnreadAt(src, a, s, 0);
  }

  lemma AtSlash(src: array<char>, a: nat, b: nat, s: string, p: Path, result: string)
    requires Invariant(src, a, b, s, p, result, false) && a < |s| && s[a] == '/'
    ensures Invariant(src, a, b, s, p, result, true)
  {
    hide PathText, Tail, Future, PathOk;
    FutureSlash(p, s[a..]);
  }

  /** A character that is not dropped is copied to its place. */
  method CopyChar(src: array<char>, a: nat, b: nat, ghost s: string, ghost p: Path, ghost result: string,
                  ghost slash: bool) returns (ghost p1: Path)
    requires Invariant(src, a, b, s, p, result, slash) && a < |s| && '\0' !in s
    requires if slash then s[a] == '/' && NextIs(s, a) == Other else s[a] != '/'
    modifies src
    ensures Invariant(src, a + 1, b + 1, s, p1, result, false)
  {
    hide PathText, Tail, Future, PathOk, NextIs, Extend;
    UnreadAt(src, a, s, 0);
    UnreadLater(src, a, s, 1);
    if slash {
      SlashCopied(s, a, p);
      PushText(p);
      p1 := Path(p.first, p.rest + [""]);
    } else {
      CharCopied(s, a, p);
      ExtendText(p, [s[a]]);
      ExtendOk(p, s[a]);
      p1 := Extend(p, [s[a]]);
    }
    src[b] := src[a];
    assert src[..b + 1] == src[..b] + [s[a]];
  }

  /** With the unread part exhausted, the result stands before the null character. */
  lemma Finished(src: array<char>, a: nat, b: nat, s: string, p: Path, result: string, atSlash: bool)
    requires a == |s| && b <= a && b < src.Length && src[b] == '\0' && src[..b] == PathText(p) && '\0' !in src[..b]
    requires result == if atSlash then Tail(p, "") else Future(p, "")
    ensures CString(src[..]) == result && |result| == b
  {
    FutureSlash(p, "");
    assert src[..][..b] == src[..b];
    CStringUnique(src[..], src[..b]);
  }

  method Terminate(src: array<char>, a: nat, b: nat, ghost s: string, ghost p: Path, ghost result: string,
                   ghost atSlash: bool)
    requires Invariant(src, a, b, s, p, result, atSlash) && '\0' !in s && b < src.Length && a < src.Length
             && src[a] == '\0'
    modifies src
    ensures CString(src[..]) == result && |result| <= |s|
  {
    hide PathText, Tail, Future, PathOk, CString;
    InvariantBounds(src, a, b, s, p, result, atSlash);
    assert a == |s| && s[a..] == "";
    ghost var w := src[..b];
    src[b] := '\0';
    assert src[..b] == w;
    Finished(src, a, b, s, p, result, atSlash);
  }

  /** The tidied path replaces the path in the buffer and is never longer. */
  method Normalize(src: array<char>)
    requires '\0' in src[..]
    modifies src
    ensures CString(src[..]) == Normalized(old(CString(src[..])))
    ensures |Normalized(old(CString(src[..])))| <= |old(CString(src[..]))|
  {
    hide PathText, Tail, Future, Extend, Normalized, NextIs, Invariant, CString;
    ghost var s := CString(src[..]);
    ghost var p, result := Path("", []), Normalized(s);
    var a, b := 0, 0;
    Started(src, s);
    InvariantBounds(src, a, b, s, p, result, false);
    while src[a] != '\0'
      invariant a < src.Length && Invariant(src, a, b, s, p, result, false)
      decreases |s| - a
    {
      ghost var slash := src[a] == '/';
      InvariantBounds(src, a, b, s, p, result, false);
      if src[a] == '/' {
        AtSlash(src, a, b, s, p, result);
        a, b, p := SkipComponents(src, a, b, s, p, result);
      }
      InvariantBounds(src, a, b, s, p, result, slash);
      if src[a] == '\0' {
        Terminate(src, a, b, s, p, result, slash);
        return;
      }
      p := CopyChar(src, a, b, s, p, result, slash);
      b := b + 1;
      a := a + 1;
      InvariantBounds(src, a, b, s, p, result, false);
    }
    InvariantBounds(src, a, b, s, p, result, false);
    Terminate(src, a, b, s, p, result, false);
  }

  // ----- What a tidied path looks like -----

  /** No `//`, `/./` or `/../`, and no `/.` or `/..` at the end. */
  predicate Clean(s: string) {
    forall k :: 0 <= k < |s| && s[k] == '/' ==> NextIs(s, k) == Other
  }

  predicate Kept(c: string) { c != "" && c != "." && c != ".." && '/' !in c }

  predicate KeptPath(p: Path) { '/' !in p.first && forall i :: 0 <= i < |p.rest| ==> Kept(p.rest[i]) }

  predicate EndsPlain(x: string) { x != "" ==> x[|x| - 1] != '/' }

  /** What is behind a slash is the same when a slash follows the text. */
  lemma NextBefore(x: string, y: string, k: nat)
    requires k < |x| && x[k] == '/' && EndsPlain(x) && (y == "" || y[0] == '/') && '\0' !in x + y
    ensures NextIs(x + y, k) == NextIs(x, k)
  {
    var z := x + y;
    assert forall i :: 0 <= i < |x| ==> z[i] == x[i];
    assert y != "" ==> z[|x|] == '/';
  }

  /** A kept component behind a slash at the end. */
  lemma NextLast(x: string, c: string)
    requires (c == "" || Kept(c)) && '\0' !in c
    ensures NextIs(x + ("/" + c), |x|) == Other
  {
    var z := x + ("/" + c);
    assert forall i :: 0 <= i < |c| ==> z[|x| + 1 + i] == c[i];
    assert |c| == 1 ==> c == [c[0]];
    assert |c| == 2 ==> c == [c[0], c[1]];
  }

  lemma CleanSnoc(x: string, c: string)
    requires Clean(x) && EndsPlain(x) && (c == "" || Kept(c)) && '\0' !in x && '\0' !in c
    ensures Clean(x + "/" + c) && (c != "" ==> EndsPlain(x + "/" + c))
  {
    hide NextIs;
    var z := x + ("/" + c);
    assert z == x + "/" + c;
    forall k | 0 <= k < |z| && z[k] == '/' ensures NextIs(z, k) == Other {
      if k < |x| {
        NextBefore(x, "/" + c, k);
      } else if k == |x| {
        NextLast(x, c);
      }
    }
  }

  predicate Plain(p: Path) { '\0' !in p.first && forall i :: 0 <= i < |p.rest| ==> '\0' !in p.rest[i] }

  lemma {:induction false} KeptIsClean(p: Path)
    requires KeptPath(p) && Plain(p)
    ensures Clean(PathText(p)) && EndsPlain(PathText(p)) && '\0' !in PathText(p)
    decreases |p.rest|
  {
    if p.rest == [] {
      assert PathText(p) == p.first;
    } else {
      var q, c := Path(p.first, p.rest[..|p.rest| - 1]), p.rest[|p.rest| - 1];
      KeptIsClean(q);
      assert PathText(p) == PathText(q) + "/" + c;
      CleanSnoc(PathText(q), c);
    }
  }

  lemma {:induction false} SplitKeeps(s: string)
    requires '\0' !in s
    ensures forall i :: 0 <= i < |Split(s)| ==> '/' !in Split(s)[i] && '\0' !in Split(s)[i]
    decreases |s|
  {
    hide FirstSlash, Split;
    SplitStep(s);
    var n := FirstSlash(s);
    if n < |s| { SplitKeeps(s[n + 1..]); }
  }

  lemma {:induction false} WalkKeeps(p: Path, cs: seq<string>)
    requires KeptPath(p) && Plain(p) && forall i :: 0 <= i < |cs| ==> '/' !in cs[i] && '\0' !in cs[i]
    ensures KeptPath(Walk(p, cs)) && Plain(Walk(p, cs))
    decreases |cs|
  {
    if cs != [] { WalkKeeps(Step(p, cs[0]), cs[1..]); }
  }

  /** A tidied path is clean. */
  lemma NormalizedIsClean(s: string)
    requires '\0' !in s
    ensures Clean(Normalized(s))
  {
    hide Clean, EndsPlain, PathText, Walk;
    var cs := Split(s);
    var p := Walk(Path(cs[0], []), cs[1..]);
    SplitKeeps(s);
    WalkKeeps(Path(cs[0], []), cs[1..]);
    KeptIsClean(p);
    CleanSnoc(PathText(p), "");
    assert PathText(p) + "/" + "" == PathText(p) + "/" && PathText(p) + "" == PathText(p);
  }

  /** A clean text is copied as it is. */
  lemma {:induction false} CleanCopied(s: string, a: nat, p: Path)
    requires a <= |s| && '\0' !in s && Clean(s) && PathOk(p)
    ensures Future(p, s[a..]) == PathText(p) + s[a..]
    decreases |s| - a
  {
    hide NextIs, Future, Tail, PathText, Extend, PathOk;
    if a == |s| {
      FutureSlash(p, s[a..]);
      TailNothing(p);
    } else if s[a] == '/' {
      FutureSlash(p, s[a..]);
      SlashCopied(s, a, p);
      PushText(p);
      CleanCopied(s, a + 1, Path(p.first, p.rest + [""]));
      assert PathText(p) + s[a..] == PathText(p) + "/" + s[a + 1..];
    } else {
      CharCopied(s, a, p);
      ExtendText(p, [s[a]]);
      ExtendOk(p, s[a]);
      CleanCopied(s, a + 1, Extend(p, [s[a]]));
      assert PathText(p) + s[a..] == PathText(p) + [s[a]] + s[a + 1..];
    }
  }

  lemma TailNothing(p: Path)
    ensures Tail(p, "") == PathText(p) + ""
  {
    assert PathText(p) + "" == PathText(p);
  }

  /** Exactly the clean paths are left as they are. */
  lemma FixedIffClean(s: string)
    requires '\0' !in s
    ensures Normalized(s) == s <==> Clean(s)
  {
    NormalizedIsClean(s);
    if Clean(s) {
      CleanCopied(s, 0, Path("", []));
      Beginning(s);
      assert s[0..] == s && PathText(Path("", [])) + s == s;
    }
  }

  lemma NormalizedPlain(s: string)
    requires '\0' !in s
    ensures '\0' !in Normalized(s)
  {
    hide PathText, Walk;
    var cs := Split(s);
    SplitKeeps(s);
    WalkKeeps(Path(cs[0], []), cs[1..]);
    KeptIsClean(Walk(Path(cs[0], []), cs[1..]));
  }

  /** A second run changes nothing. */
  lemma Idempotent(s: string)
    requires '\0' !in s
    ensures Normalized(Normalized(s)) == Normalized(s)
  {
    NormalizedPlain(s);
    NormalizedIsClean(s);
    FixedIffClean(Normalized(s));
  }

  // ----- When a path becomes absolute -----

  /** How many components remain of `cs` behind `d` others; `..` cannot go below none. */
  function Depth(d: nat, cs: seq<string>): nat
    decreases |cs|
  {
    if cs == [] then d
    else if cs[0] == "" || cs[0] == "." then Depth(d, cs[1..])
    else if cs[0] == ".." then Depth(if d == 0 then 0 else d - 1, cs[1..])
    else Depth(d + 1, cs[1..])
  }

  /** Some `..` meets no component before it. */
  predicate Sinks(d: nat, cs: seq<string>)
    decreases |cs|
  {
    if cs == [] then false
    else if cs[0] == "" || cs[0] == "." then Sinks(d, cs[1..])
    else if cs[0] == ".." then d == 0 || Sinks(d - 1, cs[1..])
    else Sinks(d + 1, cs[1..])
  }

  /** The first component is lost when the depth sinks below zero, and the depth is that of the result. */
  lemma {:induction false} WalkDepth(p: Path, cs: seq<string>)
    ensures |Walk(p, cs).rest| == Depth(|p.rest|, cs)
    ensures Walk(p, cs).first == if Sinks(|p.rest|, cs) then "" else p.first
    decreases |cs|
  {
    if cs != [] { WalkDepth(Step(p, cs[0]), cs[1..]); }
  }

  lemma {:induction false} RestBegins(rest: seq<string>)
    ensures if rest == [] then RestText(rest) == "" else RestText(rest) != "" && RestText(rest)[0] == '/'
  {
    if rest != [] { RestBegins(rest[..|rest| - 1]); }
  }

  lemma AbsoluteText(p: Path, tail: string)
    requires '/' !in p.first && (tail == "" || tail == "/")
    ensures var t := PathText(p) + tail;
            t != "" && t[0] == '/' <==> p.first == "" && (p.rest != [] || tail == "/")
  {
    RestBegins(p.rest);
  }

  /** A path comes out absolute exactly when its first component is empty or lost, and something is left behind
      it: a component, or the slash at the end. */
  lemma AbsoluteIff(s: string)
    ensures var cs, t := Split(s), Normalized(s);
            t != "" && t[0] == '/' <==>
            (cs[0] == "" || Sinks(0, cs[1..])) && (Depth(0, cs[1..]) > 0 || Trailing(cs[1..]) == "/")
  {
    hide FirstSlash, Split, Walk, PathText, Depth, Sinks;
    var cs := Split(s);
    SplitStep(s);
    WalkDepth(Path(cs[0], []), cs[1..]);
    AbsoluteText(Walk(Path(cs[0], []), cs[1..]), Trailing(cs[1..]));
  }

  /** For a relative path: exactly when some `..` meets no component behind the first, and a component or the
      slash at the end is left. */
  lemma RelativeBecomesAbsolute(s: string)
    requires s != "" && s[0] != '/'
    ensures var cs, t := Split(s)[1..], Normalized(s);
            t != "" && t[0] == '/' <==> Sinks(0, cs) && (Depth(0, cs) > 0 || Trailing(cs) == "/")
  {
    hide Split, Normalized, Depth, Sinks, Trailing;
    AbsoluteIff(s);
    SplitStep(s);
  }

  /** Exactly when nothing at all is left of a path. */
  lemma NothingLeftIff(s: string)
    ensures var cs := Split(s);
            Normalized(s) == "" <==>
            (cs[0] == "" || Sinks(0, cs[1..])) && Depth(0, cs[1..]) == 0 && Trailing(cs[1..]) == ""
  {
    hide FirstSlash, Split, Walk, Depth, Sinks;
    var cs := Split(s);
    WalkDepth(Path(cs[0], []), cs[1..]);
    RestBegins(Walk(Path(cs[0], []), cs[1..]).rest);
  }

  lemma WalkTwo(p: Path, c: string, d: string)
    ensures Walk(p, [c, d]) == Step(Step(p, c), d)
  {
    assert [c, d][1..] == [d] && [d][1..] == [];
    assert Walk(p, [c, d]) == Walk(Step(p, c), [d]);
    assert Walk(Step(p, c), [d]) == Walk(Step(Step(p, c), d), []);
  }

  lemma SplitBehind(a: string, t: string)
    requires '/' !in a
    ensures Split(a + "/" + t) == [a] + Split(t)
  {
    hide FirstSlash, Split;
    var s := a + "/" + t;
    assert s[..|a|] == a && s[|a|] == '/' && s[|a| + 1..] == t;
    assert forall k :: 0 <= k < |a| ==> s[k] == a[k];
    FirstSlashIs(s, |a|);
    SplitStep(s);
  }

  lemma SplitWhole(c: string)
    requires '/' !in c
    ensures Split(c) == [c]
  {
    hide Split;
    FirstSlashIs(c, |c|);
    SplitStep(c);
  }

  /** For example, `a/../b` becomes `/b`. */
  lemma FirstComponentLost(a: string, b: string)
    requires '/' !in a && Kept(b)
    ensures Normalized(a + "/" + ("../" + b)) == "/" + b
  {
    hide Split, Walk;
    SplitBehind(a, "../" + b);
    SplitBehind("..", b);
    SplitWhole(b);
    assert ".." + "/" + b == "../" + b && [".."] + [b] == ["..", b];
    assert ([a] + ["..", b])[1..] == ["..", b];
    WalkTwo(Path(a, []), "..", b);
    assert [] + [b] == [b] && Step(Step(Path(a, []), ".."), b) == Path("", [b]);
    RestTextSnoc([], b);
    assert PathText(Path("", [b])) == "/" + b;
  }

  /** With nothing behind it, `a/..` becomes empty, and `a/../` the root. */
  lemma FirstComponentOnly(a: string)
    requires '/' !in a
    ensures Normalized(a + "/" + "..") == "" && Normalized(a + "/" + "../") == "/"
  {
    hide FirstSlash, Split, Walk;
    SplitBehind(a, "..");
    SplitWhole("..");
    assert ([a] + [".."])[1..] == [".."];
    WalkOne(Path(a, []), "..");
    SplitBehind(a, "../");
    SplitBehind("..", "");
    SplitWhole("");
    assert ".." + "/" + "" == "../" && [".."] + [""] == ["..", ""];
    assert ([a] + ["..", ""])[1..] == ["..", ""];
    WalkTwo(Path(a, []), "..", "");
  }
}
