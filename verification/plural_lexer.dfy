/** `yylex` on the rest of the input, and how sentences are spelled. */
module PluralLexer {
  import opened Digits
  import opened PluralGrammar
  import opened PluralMachine
  import opened PluralSoundness

  // ----- Characters and numbers -----

  predicate IsBlank(c: char) { c == ' ' || c == '\t' }

  /** The character under the pointer; a C string ends with a null character. */
  function First(s: string): char { if s == "" then '\0' else s[0] }

  function SkipBlanks(s: string): (rest: string)
    ensures |rest| <= |s| && !IsBlank(First(rest))
  {
    if s != "" && IsBlank(s[0]) then SkipBlanks(s[1..]) else s
  }

  /** Length of the longest prefix of digits. */
  function DigitsLength(s: string): (n: nat)
    ensures n <= |s| && (forall i :: 0 <= i < n ==> IsDigit(s[i])) && (n < |s| ==> !IsDigit(s[n]))
  {
    if s != "" && IsDigit(s[0]) then 1 + DigitsLength(s[1..]) else 0
  }

  // ----- The lexer -----

  datatype Lexed = Lexed(token: Token, rest: string)

  /** A token that is no number. */
  function LexPunctuation(t: string): (r: Lexed)
    requires t != ""
    ensures |r.rest| < |t| && r.token.code != YYEOF
  {
    var c, next := t[0], First(t[1..]);
    match c
    case '=' => if next == '=' then Lexed(Token(EQUOP2, OpV(Equal)), t[2..]) else Lexed(Token(YYERRCODE, Unset), t[1..])
    case '!' => if next == '=' then Lexed(Token(EQUOP2, OpV(NotEqual)), t[2..])
                else Lexed(Token(Code(c), Unset), t[1..])
    case '&' => if next == c then Lexed(Token(Code(c), Unset), t[2..]) else Lexed(Token(YYERRCODE, Unset), t[1..])
    case '|' => if next == c then Lexed(Token(Code(c), Unset), t[2..]) else Lexed(Token(YYERRCODE, Unset), t[1..])
    case '<' => if next == '=' then Lexed(Token(CMPOP2, OpV(LessOrEqual)), t[2..])
                else Lexed(Token(CMPOP2, OpV(LessThan)), t[1..])
    case '>' => if next == '=' then Lexed(Token(CMPOP2, OpV(GreaterOrEqual)), t[2..])
                else Lexed(Token(CMPOP2, OpV(GreaterThan)), t[1..])
    case '*' => Lexed(Token(MULOP2, OpV(Mult)), t[1..])
    case '/' => Lexed(Token(MULOP2, OpV(Divide)), t[1..])
    case '%' => Lexed(Token(MULOP2, OpV(Module)), t[1..])
    case '+' => Lexed(Token(ADDOP2, OpV(Plus)), t[1..])
    case '-' => Lexed(Token(ADDOP2, OpV(Minus)), t[1..])
    case 'n' => Lexed(Token(Code(c), Unset), t[1..])
    case '?' => Lexed(Token(Code(c), Unset), t[1..])
    case ':' => Lexed(Token(Code(c), Unset), t[1..])
    case '(' => Lexed(Token(Code(c), Unset), t[1..])
    case ')' => Lexed(Token(Code(c), Unset), t[1..])
    case _ => Lexed(Token(YYERRCODE, Unset), t[1..])
  }

  /** One call of `yylex`, with `unsigned long` holding values below `m`. */
  function Lex(s: string, m: nat): (r: Lexed)
    requires m > 0
    ensures |r.rest| <= |s| && (r.token.code != YYEOF ==> |r.rest| < |s|)
  {
    var t := SkipBlanks(s);
    var c := First(t);
    if t == "" || c == '\0' || c == ';' || c == '\n' then Lexed(EOF_TOKEN, t)
    else if IsDigit(c) then
      var n := DigitsLength(t);
      Lexed(Token(NUMBER, NumV(Decimal(t[..n]) % m)), t[n..])
    else LexPunctuation(t)
  }

  /** The tokens of all calls up to and including the first end marker. */
  function LexAll(s: string, m: nat): (ts: seq<Token>)
    requires m > 0
    ensures |ts| > 0
    decreases |s|
  {
    var l := Lex(s, m);
    if l.token.code == YYEOF then [EOF_TOKEN] else [l.token] + LexAll(l.rest, m)
  }

  lemma LexOk(s: string, m: nat)
    requires m > 0
    ensures TokenOk(Lex(s, m).token)
    ensures Lex(s, m).token.code == YYEOF ==> Lex(s, m).token == EOF_TOKEN
  {
    EofOk();
    NumberOk();
    var t := SkipBlanks(s);
    if t != "" { PunctuationOk(t); }
    hide TokenOk, LexPunctuation, SkipBlanks, DigitsLength, Decimal;
  }

  lemma EofOk()
    ensures TokenOk(EOF_TOKEN)
  {
  }

  lemma NumberOk()
    ensures NUMBER != YYEOF && forall n: nat :: TokenOk(Token(NUMBER, NumV(n)))
  {
  }

  lemma PunctuationOk(t: string)
    requires t != ""
    ensures TokenOk(LexPunctuation(t).token)
  {
  }

  /** `yylex` delivers exactly what the parser may rely on. */
  lemma {:induction false} LexAllOk(s: string, m: nat)
    requires m > 0
    ensures TokensOk(LexAll(s, m))
    decreases |s|
  {
    hide Lex, TokenOk;
    LexOk(s, m);
    var l := Lex(s, m);
    if l.token.code != YYEOF {
      LexAllOk(l.rest, m);
      var ts := LexAll(l.rest, m);
      assert LexAll(s, m) == [l.token] + ts;
    } else {
      assert LexAll(s, m) == [EOF_TOKEN];
    }
  }

  // ----- Spelling -----

  function DecimalString(n: nat): (s: string)
    ensures |s| > 0 && AllDigits(s)
  {
    if n < 10 then [('0' as int + n) as char] else DecimalString(n / 10) + [('0' as int + n % 10) as char]
  }

  lemma {:induction false} DecimalOfString(n: nat)
    ensures Decimal(DecimalString(n)) == n
  {
    if n < 10 {
      assert DecimalString(n)[..0] == "";
    } else {
      DecimalOfString(n / 10);
      var s := DecimalString(n);
      assert s[..|s| - 1] == DecimalString(n / 10);
    }
  }

  /** Tokens that have a spelling. */
  predicate Writable(t: Token) {
    TokenOk(t) && t.code != YYEOF && t.code != YYERRCODE
  }

  /** A token after its number went through an `unsigned long`. */
  function WrapToken(t: Token, m: nat): Token
    requires m > 0
  {
    if t.val.NumV? then Token(t.code, NumV(t.val.num % m)) else t
  }

  function WrapTokens(ts: seq<Token>, m: nat): seq<Token>
    requires m > 0
  {
    if ts == [] then [] else [WrapToken(ts[0], m)] + WrapTokens(ts[1..], m)
  }

  function Spell(t: Token): (s: string)
    requires Writable(t)
    ensures |s| > 0
  {
    if t.code == NUMBER then DecimalString(t.val.num)
    else if t.code == EQUOP2 then (if t.val.op == Equal then "==" else "!=")
    else if t.code == CMPOP2 then
      match t.val.op
      case LessThan => "<" case GreaterThan => ">" case LessOrEqual => "<=" case _ => ">="
    else if t.code == ADDOP2 then (if t.val.op == Plus then "+" else "-")
    else if t.code == MULOP2 then (match t.val.op case Mult => "*" case Divide => "/" case _ => "%")
    else if t.code == Code('&') then "&&"
    else if t.code == Code('|') then "||"
    else SpellCode(t)
  }

  function SpellCode(t: Token): string
    requires Writable(t)
  {
    match Symbol(t) case 3 => "?" case 10 => "!" case 12 => ":" case 13 => "n" case 14 => "(" case _ => ")"
  }

  /** `next` must not directly follow `t`: its first character would extend `t`. */
  predicate Extends(t: Token, next: char) {
    if t.code == NUMBER then IsDigit(next)
    else next == '=' && (t.code == Code('!') || t == Token(CMPOP2, OpV(LessThan))
                         || t == Token(CMPOP2, OpV(GreaterThan)))
  }

  predicate Blank(s: string) { forall i :: 0 <= i < |s| ==> IsBlank(s[i]) }

  lemma {:induction false} SkipBlanksOver(gap: string, s: string)
    requires Blank(gap) && !IsBlank(First(s))
    ensures SkipBlanks(gap + s) == s
  {
    if gap == "" {
      assert gap + s == s;
    } else {
      assert (gap + s)[1..] == gap[1..] + s;
      SkipBlanksOver(gap[1..], s);
    }
  }

  lemma {:induction false} DigitsLengthOver(ds: string, s: string)
    requires AllDigits(ds) && !IsDigit(First(s))
    ensures DigitsLength(ds + s) == |ds|
  {
    if ds == "" {
      assert ds + s == s;
    } else {
      assert (ds + s)[1..] == ds[1..] + s;
      DigitsLengthOver(ds[1..], s);
    }
  }

  lemma LexSkips(gap: string, s: string, m: nat)
    requires m > 0 && Blank(gap) && !IsBlank(First(s))
    ensures Lex(gap + s, m) == Lex(s, m)
  {
    SkipBlanksOver(gap, s);
    SkipBlanksOver("", s);
    assert "" + s == s;
  }

  lemma LexNumber(n: nat, rest: string, m: nat)
    requires m > 0 && !IsDigit(First(rest))
    ensures Lex(DecimalString(n) + rest, m) == Lexed(Token(NUMBER, NumV(n % m)), rest)
  {
    var w := DecimalString(n);
    var s := w + rest;
    DigitsLengthOver(w, rest);
    assert SkipBlanks(s) == s && First(s) == w[0];
    assert s[..|w|] == w && s[|w|..] == rest;
    DecimalOfString(n);
  }

  lemma LexSymbol(t: Token, rest: string, m: nat)
    requires m > 0 && Writable(t) && t.code != NUMBER && !Extends(t, First(rest))
    ensures Lex(Spell(t) + rest, m) == Lexed(t, rest) && !t.val.NumV? && !IsBlank(First(Spell(t) + rest))
  {
    hide Decimal, DigitsLength;
    var w := Spell(t);
    var s := w + rest;
    if |w| == 1 {
      assert s[1..] == rest && First(s) == w[0];
    } else {
      assert |w| == 2 && s[2..] == rest && First(s) == w[0] && First(s[1..]) == w[1];
    }
    assert SkipBlanks(s) == s;
  }

  /** A spelled token is read back, whatever blanks precede it. */
  lemma LexSpelled(gap: string, t: Token, rest: string, m: nat)
    requires m > 0 && Writable(t) && Blank(gap) && !Extends(t, First(rest))
    ensures Lex(gap + Spell(t) + rest, m) == Lexed(WrapToken(t, m), rest)
  {
    hide Lex, TokenOk;
    var w := Spell(t);
    assert gap + w + rest == gap + (w + rest);
    if t.code == NUMBER {
      TokenOfSymbol(t);
      LexNumber(t.val.num, rest, m);
      assert IsDigit(First(w + rest));
    } else {
      LexSymbol(t, rest, m);
    }
    LexSkips(gap, w + rest, m);
  }

  // ----- Sentences as text -----

  /** The tokens of a sentence with blanks around them. */
  function Render(ts: seq<Token>, gaps: seq<string>): string
    requires |gaps| == |ts| + 1
    requires AllWritable(ts)
  {
    if ts == [] then gaps[0] else gaps[0] + Spell(ts[0]) + Render(ts[1..], gaps[1..])
  }

  ghost predicate AllBlank(gaps: seq<string>) { forall i :: 0 <= i < |gaps| ==> Blank(gaps[i]) }

  ghost predicate AllWritable(ts: seq<Token>) { forall i :: 0 <= i < |ts| ==> Writable(ts[i]) }

  /** No two neighbours run together when no blank separates them. */
  ghost predicate Separable(ts: seq<Token>) {
    forall i :: 0 < i < |ts| ==> TokenOk(ts[i]) && Pair(ts[i - 1], ts[i])
  }

  /** `b` may be written directly after `a`. */
  predicate Pair(a: Token, b: Token) {
    !(a.code == NUMBER && b.code == NUMBER) &&
    !((a.code == Code('!') || a.code == CMPOP2) && b == Token(EQUOP2, OpV(Equal)))
  }

  /** Where `yylex` stops: at the end of the string, or at a semicolon or newline. */
  predicate Terminator(s: string) { s == "" || s[0] == ';' || s[0] == '\n' || s[0] == '\0' }

  lemma SpellStarts(b: Token)
    requires Writable(b)
    ensures !IsBlank(Spell(b)[0])
    ensures IsDigit(Spell(b)[0]) ==> b.code == NUMBER
    ensures Spell(b)[0] == '=' ==> b == Token(EQUOP2, OpV(Equal))
  {
  }

  /** The text after a token of a sentence does not extend that token. */
  lemma RenderContinues(t: Token, ts: seq<Token>, gaps: seq<string>, tail: string)
    requires |gaps| == |ts| + 1 && AllBlank(gaps) && AllWritable(ts) && Terminator(tail) && Writable(t)
    requires ts != [] ==> Pair(t, ts[0])
    ensures !Extends(t, First(Render(ts, gaps) + tail))
  {
    hide TokenOk, Spell;
    if gaps[0] != "" {
      assert IsBlank(gaps[0][0]);
      assert First(Render(ts, gaps) + tail) == gaps[0][0];
    } else if ts == [] {
      assert Render(ts, gaps) + tail == tail;
    } else {
      SpellStarts(ts[0]);
      assert First(Render(ts, gaps) + tail) == Spell(ts[0])[0];
    }
  }

  lemma LexTerminator(gap: string, tail: string, m: nat)
    requires m > 0 && Blank(gap) && Terminator(tail)
    ensures LexAll(gap + tail, m) == [EOF_TOKEN]
  {
    SkipBlanksOver(gap, tail);
  }

  /** Writing a sentence and reading it back gives its tokens, for any blanks between them. */
  lemma {:induction false} LexRendered(ts: seq<Token>, gaps: seq<string>, tail: string, m: nat)
    requires m > 0 && |gaps| == |ts| + 1 && AllBlank(gaps) && AllWritable(ts) && Separable(ts) && Terminator(tail)
    ensures LexAll(Render(ts, gaps) + tail, m) == WrapTokens(ts, m) + [EOF_TOKEN]
  {
    hide Lex, TokenOk, Spell;
    if ts == [] {
      LexTerminator(gaps[0], tail, m);
    } else {
      var rest := Render(ts[1..], gaps[1..]) + tail;
      assert Render(ts, gaps) + tail == gaps[0] + Spell(ts[0]) + rest;
      assert Writable(ts[0]);
      assert ts[1..] != [] ==> Pair(ts[0], ts[1]);
      RenderContinues(ts[0], ts[1..], gaps[1..], tail);
      LexSpelled(gaps[0], ts[0], rest, m);
      LexRendered(ts[1..], gaps[1..], tail, m);
      assert ts == [ts[0]] + ts[1..];
    }
  }
}
