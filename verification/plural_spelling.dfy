/** What the text of a plural expression is, and that exactly such texts are accepted. */
module PluralSpelling {
  import opened Digits
  import opened PluralGrammar
  import opened PluralMachine
  import opened PluralSoundness
  import opened PluralCompleteness
  import opened PluralLexer
  import opened PluralText

  // ----- Texts -----

  /** Spaces and tabs. */
  predicate Gap(s: string) { forall i :: 0 <= i < |s| ==> s[i] == ' ' || s[i] == '\t' }

  /** Digits, possibly with zeros before them, that read `n`. */
  predicate Numeral(w: string, n: nat) {
    w != "" && (forall i :: 0 <= i < |w| ==> '0' <= w[i] <= '9') && AllDigits(w) && Decimal(w) == n
  }

  /** The text of a binary operator. */
  function OperatorText(op: Operator): string {
    match op
    case LOr => "||" case LAnd => "&&" case Equal => "==" case NotEqual => "!="
    case LessThan => "<" case GreaterThan => ">" case LessOrEqual => "<=" case GreaterOrEqual => ">="
    case Plus => "+" case Minus => "-" case Mult => "*" case Divide => "/" case Module => "%"
  }

  predicate Punctuation(w: string) {
    |w| == 1 && (w[0] == '!' || w[0] == '?' || w[0] == ':' || w[0] == '(' || w[0] == ')' || w[0] == 'n')
  }

  /** `w` is a text of a token. */
  ghost predicate Spells(w: string, t: Token) {
    || (t.val.NumV? && t.code == NUMBER && Numeral(w, t.val.num))
    || (exists op: Operator :: t == OpToken(op) && w == OperatorText(op))
    || (Punctuation(w) && t == Token(w[0] as int, Unset))
  }

  ghost predicate AllSpell(ws: seq<string>, ts: seq<Token>) {
    |ws| == |ts| && forall i :: 0 <= i < |ws| ==> Spells(ws[i], ts[i])
  }

  ghost predicate AllGaps(gaps: seq<string>) { forall i :: 0 <= i < |gaps| ==> Gap(gaps[i]) }

  /** The words with the gaps around them. */
  function Interleave(ws: seq<string>, gaps: seq<string>): string
    requires |gaps| == |ws| + 1
  {
    if ws == [] then gaps[0] else gaps[0] + ws[0] + Interleave(ws[1..], gaps[1..])
  }

  /** The text ends, or goes on behind a semicolon, a newline or a null character. */
  predicate Ends(tail: string) { tail == "" || tail[0] == ';' || tail[0] == '\n' || tail[0] == '\0' }

  /** `s` is a text of the derivation `c`. */
  ghost predicate Writes(s: string, c: Cst) {
    exists ws, gaps, tail :: WritesWith(s, c, ws, gaps, tail)
  }

  ghost predicate WritesWith(s: string, c: Cst, ws: seq<string>, gaps: seq<string>, tail: string) {
    && AllSpell(ws, Yield(c)) && |gaps| == |ws| + 1 && AllGaps(gaps) && Ends(tail)
    && s == Interleave(ws, gaps) + tail
  }

  // ----- From the text to the tokens -----

  lemma GapIsBlank(s: string)
    ensures Gap(s) <==> Blank(s)
  {
  }

  lemma EndsIsTerminator(s: string)
    ensures Ends(s) <==> Terminator(s)
  {
  }

  lemma OperatorSpelling(op: Operator)
    ensures Writable(OpToken(op)) && Spell(OpToken(op)) == OperatorText(op) && OpToken(op).code != NUMBER
  {
  }

  lemma PunctuationSpelling(w: string)
    requires Punctuation(w)
    ensures var t := Token(w[0] as int, Unset); Writable(t) && Spell(t) == w && t.code != NUMBER
  {
    assert w == [w[0]];
  }

  lemma WritableSymbol(t: Token)
    requires Writable(t)
    ensures 3 <= Symbol(t) <= 15 && TokenOk(t) && (Symbol(t) == 11 <==> t.code == NUMBER)
  {
    TokenOfSymbol(t);
  }

  /** Numerals are what the lexer takes for a number; the other words are the spellings. */
  lemma SpellsIs(w: string, t: Token)
    ensures Spells(w, t) <==>
            Writable(t) && (if t.code == NUMBER then t.val.NumV? && Numeral(w, t.val.num) else w == Spell(t))
  {
    hide Numeral, Writable, Spell, OperatorText, OpToken;
    if Spells(w, t) {
      SpellsForward(w, t);
    } else if Writable(t) && (if t.code == NUMBER then t.val.NumV? && Numeral(w, t.val.num) else w == Spell(t)) {
      SpellsBackward(w, t);
    }
  }

  lemma NumberWritable(n: nat)
    ensures Writable(Token(NUMBER, NumV(n)))
  {
  }

  lemma SpellsForward(w: string, t: Token)
    requires Spells(w, t)
    ensures Writable(t) && (if t.code == NUMBER then t.val.NumV? && Numeral(w, t.val.num) else w == Spell(t))
  {
    hide Numeral, Writable, Spell, OperatorText, OpToken, Punctuation;
    if t.val.NumV? && t.code == NUMBER && Numeral(w, t.val.num) {
      NumberWritable(t.val.num);
    } else if exists op: Operator :: t == OpToken(op) && w == OperatorText(op) {
      var op: Operator :| t == OpToken(op) && w == OperatorText(op);
      OperatorSpelling(op);
    } else {
      PunctuationSpelling(w);
    }
  }

  lemma SpellsBackward(w: string, t: Token)
    requires Writable(t) && (if t.code == NUMBER then t.val.NumV? && Numeral(w, t.val.num) else w == Spell(t))
    ensures Spells(w, t)
  {
    WritableSymbol(t);
    TokenOfSymbol(t);
    hide Numeral, Writable, OperatorText, OpToken, TokenOk, Symbol;
    var q := Symbol(t);
    if 4 <= q <= 9 {
      var op := if q == 4 then LOr else if q == 5 then LAnd else t.val.op;
      OperatorSpelling(op);
      assert t == OpToken(op) && w == OperatorText(op);
    } else if q != 11 {
      SpelledPunctuation(t);
    }
  }

  lemma SpelledPunctuation(t: Token)
    requires Writable(t) && (Symbol(t) == 3 || Symbol(t) == 10 || 12 <= Symbol(t) <= 15)
    ensures Punctuation(Spell(t)) && t == Token(Spell(t)[0] as int, Unset)
  {
    TokenOfSymbol(t);
  }

  lemma NumeralFacts(w: string, n: nat)
    requires Numeral(w, n)
    ensures w != "" && AllDigits(w) && Decimal(w) == n
  {
  }

  lemma LexNumeral(w: string, n: nat, rest: string, m: nat)
    requires m > 0 && Numeral(w, n) && !IsDigit(First(rest))
    ensures Lex(w + rest, m) == Lexed(Token(NUMBER, NumV(n % m)), rest) && !IsBlank(First(w + rest))
  {
    var s := w + rest;
    DigitsLengthOver(w, rest);
    assert SkipBlanks(s) == s && First(s) == w[0];
    assert s[..|w|] == w && s[|w|..] == rest;
  }

  /** A word is read as its token. */
  lemma LexWord(gap: string, w: string, t: Token, rest: string, m: nat)
    requires m > 0 && Spells(w, t) && Gap(gap) && !Extends(t, First(rest))
    ensures Lex(gap + w + rest, m) == Lexed(WrapToken(t, m), rest)
  {
    SpellsIs(w, t);
    GapIsBlank(gap);
    hide Lex, Spells, Spell, Writable, Gap, Numeral, Blank;
    if t.code == NUMBER {
      LexNumeral(w, t.val.num, rest, m);
      assert gap + w + rest == gap + (w + rest);
      LexSkips(gap, w + rest, m);
    } else {
      LexSpelled(gap, t, rest, m);
    }
  }

  lemma WordStarts(w: string, t: Token)
    requires Spells(w, t)
    ensures w != "" && !IsBlank(w[0]) && (IsDigit(w[0]) ==> t.code == NUMBER)
    ensures w[0] == '=' ==> t == Token(EQUOP2, OpV(Equal))
    ensures Writable(t)
  {
    SpellsIs(w, t);
    hide Spells;
    if t.code != NUMBER { SpellStarts(t); }
  }

  /** What follows a word does not extend it. */
  lemma WordEnds(t: Token, ws: seq<string>, ts: seq<Token>, gaps: seq<string>, tail: string)
    requires |gaps| == |ws| + 1 && AllGaps(gaps) && AllSpell(ws, ts) && Ends(tail)
    requires ts != [] ==> Pair(t, ts[0])
    ensures !Extends(t, First(Interleave(ws, gaps) + tail))
  {
    hide Spells;
    if gaps[0] != "" {
      assert Gap(gaps[0]);
      assert First(Interleave(ws, gaps) + tail) == gaps[0][0];
    } else if ws == [] {
      assert Interleave(ws, gaps) + tail == tail;
    } else {
      WordStarts(ws[0], ts[0]);
      assert First(Interleave(ws, gaps) + tail) == ws[0][0];
    }
  }

  /** Words with gaps between them, up to the end of the text, are read as their tokens. */
  lemma {:induction false} LexWords(ws: seq<string>, ts: seq<Token>, gaps: seq<string>, tail: string, m: nat)
    requires m > 0 && |gaps| == |ws| + 1 && AllGaps(gaps) && AllSpell(ws, ts) && Separable(ts) && Ends(tail)
    ensures LexAll(Interleave(ws, gaps) + tail, m) == WrapTokens(ts, m) + [EOF_TOKEN]
    decreases |ws|
  {
    hide Lex, Spells, TokenOk, Gap, Pair;
    if ws == [] {
      EndsIsTerminator(tail);
      GapIsBlank(gaps[0]);
      LexTerminator(gaps[0], tail, m);
    } else {
      var rest := Interleave(ws[1..], gaps[1..]) + tail;
      assert Interleave(ws, gaps) + tail == gaps[0] + ws[0] + rest;
      assert ts[1..] != [] ==> Pair(ts[0], ts[1]);
      WordEnds(ts[0], ws[1..], ts[1..], gaps[1..], tail);
      LexWord(gaps[0], ws[0], ts[0], rest, m);
      LexWords(ws[1..], ts[1..], gaps[1..], tail, m);
      WordStarts(ws[0], ts[0]);
      NotEof(ts[0], m);
      assert ts == [ts[0]] + ts[1..];
    }
  }

  lemma NotEof(t: Token, m: nat)
    requires m > 0 && Writable(t)
    ensures WrapToken(t, m).code != YYEOF
  {
  }

  // ----- From the tokens back to the text -----

  lemma {:induction false} BlanksSkipped(s: string) returns (gap: string)
    ensures s == gap + SkipBlanks(s) && Gap(gap)
  {
    if s != "" && IsBlank(s[0]) {
      var g := BlanksSkipped(s[1..]);
      gap := [s[0]] + g;
    } else {
      gap := "";
    }
  }

  /** A token other than a number was spelled. */
  lemma PunctuationRead(t: string)
    requires t != "" && Writable(LexPunctuation(t).token)
    ensures LexPunctuation(t).token.code != NUMBER
    ensures t == Spell(LexPunctuation(t).token) + LexPunctuation(t).rest
  {
    assert t == [t[0]] + t[1..];
    assert |t| >= 2 ==> t == [t[0], t[1]] + t[2..];
  }

  lemma DigitsRead(t: string, m: nat)
    requires m > 0 && t != "" && IsDigit(t[0])
    ensures var w := t[..DigitsLength(t)]; AllDigits(w) && Numeral(w, Decimal(w)) && t == w + t[|w|..]
  {
    hide Decimal;
  }

  /** What one call of the lexer has read: blanks and a word of its token. */
  lemma LexRead(s: string, m: nat) returns (gap: string, w: string, t: Token)
    requires m > 0 && Writable(Lex(s, m).token)
    ensures Gap(gap) && Spells(w, t) && WrapToken(t, m) == Lex(s, m).token && s == gap + w + Lex(s, m).rest
  {
    hide Decimal, SkipBlanks, DigitsLength, LexPunctuation, Gap, Spells, Writable, Spell;
    gap := BlanksSkipped(s);
    var r := SkipBlanks(s);
    EofNotWritable();
    if IsDigit(First(r)) {
      DigitsRead(r, m);
      w := r[..DigitsLength(r)];
      t := Token(NUMBER, NumV(Decimal(w)));
      NumberWritable(Decimal(w));
      SpellsIs(w, t);
      assert s == gap + (w + r[|w|..]);
    } else {
      t := Lex(s, m).token;
      PunctuationRead(r);
      w := Spell(t);
      SpellsIs(w, t);
      NoNumber(t, m);
      assert s == gap + (w + Lex(s, m).rest);
    }
  }

  lemma EofNotWritable()
    ensures !Writable(EOF_TOKEN)
  {
  }

  lemma NoNumber(t: Token, m: nat)
    requires m > 0 && Writable(t) && t.code != NUMBER
    ensures WrapToken(t, m) == t
  {
    TokenOfSymbol(t);
  }

  /** The tokens of a text without invalid characters come from words with gaps between them. */
  lemma {:induction false} LexAllRead(s: string, m: nat)
    returns (ws: seq<string>, ts: seq<Token>, gaps: seq<string>, tail: string)
    requires m > 0 && forall i :: 0 <= i < |LexAll(s, m)| - 1 ==> Writable(LexAll(s, m)[i])
    ensures |gaps| == |ws| + 1 && AllGaps(gaps) && AllSpell(ws, ts) && Ends(tail)
    ensures s == Interleave(ws, gaps) + tail && LexAll(s, m) == WrapTokens(ts, m) + [EOF_TOKEN]
    decreases |s|
  {
    hide Lex, Writable, Gap, Spells;
    var l := Lex(s, m);
    if l.token.code == YYEOF {
      var gap;
      gap, tail := EndRead(s, m);
      ws, ts, gaps := [], [], [gap];
    } else {
      var all := LexAll(l.rest, m);
      assert LexAll(s, m) == [l.token] + all;
      assert LexAll(s, m)[0] == l.token;
      forall i | 0 <= i < |all| - 1 ensures Writable(all[i]) { assert LexAll(s, m)[i + 1] == all[i]; }
      var gap, w, t := LexRead(s, m);
      var ws1, ts1, gaps1, tail1 := LexAllRead(l.rest, m);
      ws, ts, gaps, tail := [w] + ws1, [t] + ts1, [gap] + gaps1, tail1;
      assert ws[1..] == ws1 && ts[1..] == ts1 && gaps[1..] == gaps1;
      assert s == gap + w + (Interleave(ws1, gaps1) + tail);
    }
  }

  lemma EndRead(s: string, m: nat) returns (gap: string, tail: string)
    requires m > 0 && Lex(s, m).token.code == YYEOF
    ensures Gap(gap) && Ends(tail) && s == gap + tail
  {
    hide SkipBlanks, Gap, Decimal, DigitsLength, LexPunctuation;
    gap := BlanksSkipped(s);
    tail := SkipBlanks(s);
  }

  // ----- Exactly the texts of sentences -----

  /** A derivation of wrapped tokens is the wrapped derivation of the tokens. */
  lemma {:induction false} Unwrap(c: Cst, ts: seq<Token>, m: nat) returns (d: Cst)
    requires m > 0 && Yield(c) == WrapTokens(ts, m) && AllWritable(ts)
    ensures Yield(d) == ts && WrapCst(d, m) == c
    decreases c, 1
  {
    hide WrapToken, WrapTokens, Writable, AllWritable;
    match c
    case CVar => d := UnwrapLeaf(c, ts, m);
    case CNum(_) => d := UnwrapLeaf(c, ts, m);
    case CNot(_) => d := UnwrapNot(c, ts, m);
    case CBin(_, _, _) => d := UnwrapBin(c, ts, m);
    case CCond(_, _, _) => d := UnwrapCond(c, ts, m);
    case CParen(_) => d := UnwrapParen(c, ts, m);
  }

  lemma UnwrapLeaf(c: Cst, ts: seq<Token>, m: nat) returns (d: Cst)
    requires m > 0 && (c.CVar? || c.CNum?) && Yield(c) == WrapTokens(ts, m) && AllWritable(ts)
    ensures Yield(d) == ts && WrapCst(d, m) == c
  {
    hide WrapToken, WrapTokens, Writable;
    WrapLength(ts, m);
    assert ts == [ts[0]];
    if c.CVar? {
      UnwrapOther(ts[0], Code('n'), m);
      d := CVar;
    } else {
      var k := UnwrapNumber(ts[0], c.n, m);
      d := CNum(k);
    }
  }

  lemma {:induction false} UnwrapNot(c: Cst, ts: seq<Token>, m: nat) returns (d: Cst)
    requires m > 0 && c.CNot? && Yield(c) == WrapTokens(ts, m) && AllWritable(ts)
    ensures Yield(d) == ts && WrapCst(d, m) == c
    decreases c, 0
  {
    hide WrapToken, WrapTokens, Writable, AllWritable;
    assert Yield(c) == [] + [Token(Code('!'), Unset)] + Yield(c.right);
    UnwrapSplit(ts, [], Token(Code('!'), Unset), Yield(c.right), m);
    UnwrapOther(ts[0], Code('!'), m);
    var e := Unwrap(c.right, ts[1..], m);
    d := CNot(e);
    assert ts == [ts[0]] + ts[1..];
  }

  lemma {:induction false} UnwrapBin(c: Cst, ts: seq<Token>, m: nat) returns (d: Cst)
    requires m > 0 && c.CBin? && Yield(c) == WrapTokens(ts, m) && AllWritable(ts)
    ensures Yield(d) == ts && WrapCst(d, m) == c
    decreases c, 0
  {
    hide WrapToken, WrapTokens, Writable, AllWritable, OpToken;
    var i := |Yield(c.left)|;
    UnwrapSplit(ts, Yield(c.left), OpToken(c.op), Yield(c.right), m);
    UnwrapOperator(ts[i], c.op, m);
    var l := Unwrap(c.left, ts[..i], m);
    var r := Unwrap(c.right, ts[i + 1..], m);
    d := CBin(c.op, l, r);
  }

  lemma {:induction false} UnwrapCond(c: Cst, ts: seq<Token>, m: nat) returns (d: Cst)
    requires m > 0 && c.CCond? && Yield(c) == WrapTokens(ts, m) && AllWritable(ts)
    ensures Yield(d) == ts && WrapCst(d, m) == c
    decreases c, 0
  {
    hide WrapToken, WrapTokens, Writable, AllWritable;
    var q, colon := Token(Code('?'), Unset), Token(Code(':'), Unset);
    var front := Yield(c.bexp) + [q] + Yield(c.tbranch);
    var i, j := |Yield(c.bexp)|, |front|;
    UnwrapSplit(ts, front, colon, Yield(c.fbranch), m);
    UnwrapSplit(ts[..j], Yield(c.bexp), q, Yield(c.tbranch), m);
    UnwrapOther(ts[..j][i], Code('?'), m);
    UnwrapOther(ts[j], Code(':'), m);
    var b := Unwrap(c.bexp, ts[..j][..i], m);
    var y := Unwrap(c.tbranch, ts[..j][i + 1..], m);
    var z := Unwrap(c.fbranch, ts[j + 1..], m);
    d := CCond(b, y, z);
  }

  lemma {:induction false} UnwrapParen(c: Cst, ts: seq<Token>, m: nat) returns (d: Cst)
    requires m > 0 && c.CParen? && Yield(c) == WrapTokens(ts, m) && AllWritable(ts)
    ensures Yield(d) == ts && WrapCst(d, m) == c
    decreases c, 0
  {
    hide WrapToken, WrapTokens, Writable, AllWritable;
    var open, close := Token(Code('('), Unset), Token(Code(')'), Unset);
    var front := [] + [open] + Yield(c.inner);
    var j := |front|;
    assert Yield(c) == front + [close] + [];
    UnwrapSplit(ts, front, close, [], m);
    UnwrapSplit(ts[..j], [], open, Yield(c.inner), m);
    UnwrapOther(ts[..j][0], Code('('), m);
    UnwrapOther(ts[j], Code(')'), m);
    var e := Unwrap(c.inner, ts[..j][1..], m);
    d := CParen(e);
    UnwrapNothing(ts[j + 1..], m);
    assert ts == [ts[..j][0]] + ts[..j][1..] + [ts[j]];
  }

  lemma UnwrapNothing(ts: seq<Token>, m: nat)
    requires m > 0 && WrapTokens(ts, m) == []
    ensures ts == []
  {
  }

  /** The tokens around `t`. */
  lemma UnwrapSplit(ts: seq<Token>, a: seq<Token>, t: Token, b: seq<Token>, m: nat)
    requires m > 0 && WrapTokens(ts, m) == a + [t] + b && AllWritable(ts)
    ensures |a| < |ts| && ts == ts[..|a|] + [ts[|a|]] + ts[|a| + 1..] && WrapToken(ts[|a|], m) == t
    ensures WrapTokens(ts[..|a|], m) == a && WrapTokens(ts[|a| + 1..], m) == b
    ensures AllWritable(ts[..|a|]) && AllWritable(ts[|a| + 1..]) && Writable(ts[|a|])
  {
    hide WrapToken, WrapTokens, Writable;
    var i := |a|;
    WrapLength(ts, m);
    WrapLength(ts[..i], m);
    WrapLength(ts[i + 1..], m);
    assert WrapTokens(ts, m)[i] == t;
    forall k | 0 <= k < i ensures WrapToken(ts[..i][k], m) == a[k] { assert WrapTokens(ts, m)[k] == a[k]; }
    forall k | 0 <= k < |b| ensures WrapToken(ts[i + 1..][k], m) == b[k] {
      assert WrapTokens(ts, m)[i + 1 + k] == b[k];
    }
    assert WrapTokens(ts[..i], m) == a;
    assert WrapTokens(ts[i + 1..], m) == b;
  }

  lemma {:induction false} WrapLength(ts: seq<Token>, m: nat)
    requires m > 0
    ensures |WrapTokens(ts, m)| == |ts|
    ensures forall i :: 0 <= i < |ts| ==> WrapTokens(ts, m)[i] == WrapToken(ts[i], m)
  {
    hide WrapToken;
    if ts != [] { WrapLength(ts[1..], m); }
  }

  lemma UnwrapOther(t: Token, code: int, m: nat)
    requires m > 0 && Writable(t) && WrapToken(t, m) == Token(code, Unset)
    ensures t == Token(code, Unset)
  {
  }

  lemma UnwrapNumber(t: Token, n: nat, m: nat) returns (k: nat)
    requires m > 0 && Writable(t) && WrapToken(t, m) == Token(NUMBER, NumV(n))
    ensures t == Token(NUMBER, NumV(k)) && k % m == n
  {
    k := t.val.num;
  }

  lemma UnwrapOperator(t: Token, op: Operator, m: nat)
    requires m > 0 && Writable(t) && WrapToken(t, m) == OpToken(op)
    ensures t == OpToken(op)
  {
  }

  /** The text of a derivation is read as its tokens, and the result is its verdict. */
  lemma WrittenParses(s: string, c: Cst, m: nat, r: ParseResult)
    requires m > 0 && WellFormed(c) && Writes(s, c) && HaltsWith(Init(LexAll(s, m)), r)
    ensures r == TextVerdict(c, m)
  {
    hide HaltsWith, WellFormed, LexAll, AllSpell, AllGaps, Interleave, Separable, AllWritable, Yield;
    var ws, gaps, tail :| WritesWith(s, c, ws, gaps, tail);
    YieldSentence(c);
    LexWords(ws, Yield(c), gaps, tail, m);
    WrapCstShape(c, m);
    WrapCstYield(c, m);
    ParserComplete(WrapCst(c, m));
    HaltsOnce(Init(LexAll(s, m)), r, TextVerdict(c, m));
  }

  /** A text whose tokens are a sentence is the text of a derivation. */
  lemma DerivedIsWritten(s: string, d: Cst, m: nat) returns (c: Cst)
    requires m > 0 && DerivesTokens(d, LexAll(s, m))
    ensures WellFormed(c) && Writes(s, c) && WrapCst(c, m) == d
  {
    hide WellFormed, Writable, Separable, AllSpell, AllGaps, Interleave, Spells, Gap, Lex;
    YieldSentence(d);
    var all := LexAll(s, m);
    forall i | 0 <= i < |all| - 1 ensures Writable(all[i]) { assert all[i] == Yield(d)[i]; }
    var ws, ts, gaps, tail := LexAllRead(s, m);
    assert WrapTokens(ts, m) == all[..|all| - 1] == Yield(d);
    WordsWritable(ws, ts);
    c := Unwrap(d, ts, m);
    UnwrapWellFormed(c, m);
    assert WritesWith(s, c, ws, gaps, tail);
  }

  lemma WordsWritable(ws: seq<string>, ts: seq<Token>)
    requires AllSpell(ws, ts)
    ensures AllWritable(ts)
  {
    hide Spells;
    forall i | 0 <= i < |ts| ensures Writable(ts[i]) { WordStarts(ws[i], ts[i]); }
  }

  lemma {:induction false} UnwrapWellFormed(c: Cst, m: nat)
    requires m > 0 && WellFormed(WrapCst(c, m))
    ensures WellFormed(c)
  {
    hide OpLevel;
    match c
    case CVar =>
    case CNum(_) =>
    case CNot(e) => UnwrapWellFormed(e, m);
    case CBin(_, l, r) =>
      UnwrapWellFormed(l, m);
      UnwrapWellFormed(r, m);
    case CCond(b, y, z) =>
      UnwrapWellFormed(b, m);
      UnwrapWellFormed(y, m);
      UnwrapWellFormed(z, m);
    case CParen(e) => UnwrapWellFormed(e, m);
  }

  /** Exactly the texts of derivations that fit the stack are accepted, and each text of a derivation gives its
      tree, with numbers modulo the word size, or the stack overflow. */
  ghost predicate Answers(s: string, m: nat, r: ParseResult)
    requires m > 0
  {
    && (r.code == 0 <==> exists c :: WellFormed(c) && Writes(s, c) && 1 + Need(c) < 10000)
    && (forall c :: WellFormed(c) && Writes(s, c) ==> r == TextVerdict(c, m))
  }

  lemma TextExact(s: string, m: nat, r: ParseResult)
    requires m > 0 && HaltsWith(Init(LexAll(s, m)), r)
    ensures Answers(s, m, r)
  {
    hide HaltsWith, WellFormed, Writes, TokensOk, LexAll, Need;
    LexAllOk(s, m);
    ParserExact(LexAll(s, m), r);
    forall c | WellFormed(c) && Writes(s, c) ensures r == TextVerdict(c, m) { WrittenParses(s, c, m, r); }
    if r.code == 0 {
      var d :| DerivesShallow(d, LexAll(s, m));
      var c := DerivedIsWritten(s, d, m);
      WrapCstShape(c, m);
    }
  }
}
