/** What the parser does with the text of a plural expression: exactness and round trip. */
module PluralText {
  import opened Options
  import opened PluralGrammar
  import opened PluralTables
  import opened PluralMachine
  import opened PluralSoundness
  import opened PluralCompleteness
  import opened PluralLexer

  /** `c` derives the sentence `tokens`. */
  predicate DerivesTokens(c: Cst, tokens: seq<Token>) {
    WellFormed(c) && Yield(c) + [EOF_TOKEN] == tokens
  }

  /** ... and is shallow enough for the parser's stack. */
  predicate DerivesShallow(c: Cst, tokens: seq<Token>) {
    DerivesTokens(c, tokens) && 1 + Need(c) < YYMAXDEPTH
  }

  /** `r` is returned with code 0 exactly on the sentences that fit the stack; every sentence
      gets the verdict of each of its derivations. */
  lemma ParserExact(tokens: seq<Token>, r: ParseResult)
    requires TokensOk(tokens) && HaltsWith(Init(tokens), r)
    ensures r.code == 0 <==> exists c :: DerivesShallow(c, tokens)
    ensures forall c :: DerivesTokens(c, tokens) ==> r == Verdict(c)
  {
    hide HaltsWith, TokensOk;
    forall c | DerivesTokens(c, tokens)
      ensures r == Verdict(c)
    {
      ParserComplete(c);
      HaltsOnce(Init(tokens), r, Verdict(c));
    }
    if r.code == 0 {
      ParserSound(tokens, r);
      var c :| WellFormed(c) && Yield(c) + [EOF_TOKEN] == tokens && r.res == Some(Ast(c));
      assert DerivesTokens(c, tokens);
      assert DerivesShallow(c, tokens);
    }
  }

  predicate Opens(t: Token) {
    t.code == NUMBER || t == Token(Code('n'), Unset) || t == Token(Code('('), Unset) || t == Token(Code('!'), Unset)
  }

  predicate Closes(t: Token) {
    t.code == NUMBER || t == Token(Code('n'), Unset) || t == Token(Code(')'), Unset)
  }

  /** A sequence of tokens that can be written out. */
  ghost predicate Sentence(ts: seq<Token>) {
    ts != [] && AllWritable(ts) && Separable(ts) && Opens(ts[0]) && Closes(ts[|ts| - 1])
  }

  lemma SeparableAppend(a: seq<Token>, b: seq<Token>)
    requires a != [] && b != [] && AllWritable(a) && AllWritable(b) && Separable(a) && Separable(b)
    requires Pair(a[|a| - 1], b[0])
    ensures AllWritable(a + b) && Separable(a + b)
  {
    hide Pair, TokenOk;
    assert Writable(b[0]);
  }

  lemma Separator(t: Token)
    requires Writable(t)
    ensures AllWritable([t]) && Separable([t])
  {
  }

  /** `a t b` can be written when `a` and `b` can and `t` is a binary operator, `?` or `:`. */
  lemma Joined(a: seq<Token>, t: Token, b: seq<Token>)
    requires Sentence(a) && Sentence(b) && Writable(t)
    requires t.code != NUMBER && t.code != Code('!')
    ensures Sentence(a + [t] + b)
  {
    hide Writable, TokenOk, Separable, AllWritable;
    Separator(t);
    SeparableAppend(a, [t]);
    SeparableAppend(a + [t], b);
  }

  lemma {:induction false} YieldSentence(c: Cst)
    ensures Sentence(Yield(c))
  {
    hide Separable, AllWritable, YyTranslate;
    PunctuationWritable();
    match c
    case CVar => LeafSentence(c);
    case CNum(_) => LeafSentence(c);
    case CNot(e) =>
      YieldSentence(e);
      Separator(Token(Code('!'), Unset));
      SeparableAppend([Token(Code('!'), Unset)], Yield(e));
    case CBin(op, l, r) =>
      YieldSentence(l);
      YieldSentence(r);
      OperatorWritable(op);
      Joined(Yield(l), OpToken(op), Yield(r));
    case CCond(b, t, f) =>
      YieldSentence(b);
      YieldSentence(t);
      YieldSentence(f);
      Joined(Yield(b), Token(Code('?'), Unset), Yield(t));
      Joined(Yield(b) + [Token(Code('?'), Unset)] + Yield(t), Token(Code(':'), Unset), Yield(f));
    case CParen(e) =>
      YieldSentence(e);
      Separator(Token(Code('('), Unset));
      Separator(Token(Code(')'), Unset));
      SeparableAppend([Token(Code('('), Unset)], Yield(e));
      SeparableAppend([Token(Code('('), Unset)] + Yield(e), [Token(Code(')'), Unset)]);
  }

  lemma LeafSentence(c: Cst)
    requires c.CVar? || c.CNum?
    ensures Sentence(Yield(c))
  {
  }

  lemma PunctuationWritable()
    ensures Writable(Token(Code('!'), Unset)) && Writable(Token(Code('?'), Unset))
    ensures Writable(Token(Code(':'), Unset)) && Writable(Token(Code('('), Unset))
    ensures Writable(Token(Code(')'), Unset))
  {
  }

  lemma OperatorWritable(op: Operator)
    ensures Writable(OpToken(op)) && OpToken(op).code != NUMBER && OpToken(op).code != Code('!')
  {
  }

  // ----- Numbers modulo the machine word -----

  /** `e` with every number taken modulo `m`. */
  function WrapExpr(e: Expr, m: nat): Expr
    requires m > 0
  {
    match e
    case Var => Var
    case Num(n) => Num(n % m)
    case LNot(r) => LNot(WrapExpr(r, m))
    case Binary(op, l, r) => Binary(op, WrapExpr(l, m), WrapExpr(r, m))
    case QMop(b, t, f) => QMop(WrapExpr(b, m), WrapExpr(t, m), WrapExpr(f, m))
  }

  function WrapCst(c: Cst, m: nat): (w: Cst)
    requires m > 0
    ensures Level(w) == Level(c)
  {
    match c
    case CVar => CVar
    case CNum(n) => CNum(n % m)
    case CNot(e) => CNot(WrapCst(e, m))
    case CBin(op, l, r) => CBin(op, WrapCst(l, m), WrapCst(r, m))
    case CCond(b, t, f) => CCond(WrapCst(b, m), WrapCst(t, m), WrapCst(f, m))
    case CParen(e) => CParen(WrapCst(e, m))
  }

  lemma {:induction false} WrapTokensAppend(a: seq<Token>, b: seq<Token>, m: nat)
    requires m > 0
    ensures WrapTokens(a + b, m) == WrapTokens(a, m) + WrapTokens(b, m)
  {
    hide WrapToken;
    if a == [] {
      assert a + b == b;
    } else {
      assert (a + b)[1..] == a[1..] + b;
      WrapTokensAppend(a[1..], b, m);
    }
  }

  lemma WrapTokensOne(t: Token, m: nat)
    requires m > 0
    ensures WrapTokens([t], m) == [WrapToken(t, m)]
  {
  }

  lemma WrapOperator(op: Operator, m: nat)
    requires m > 0
    ensures WrapToken(OpToken(op), m) == OpToken(op)
  {
  }

  /** Wrapping keeps everything about a derivation except its numbers. */
  lemma {:induction false} WrapCstShape(c: Cst, m: nat)
    requires m > 0
    ensures WellFormed(c) ==> WellFormed(WrapCst(c, m))
    ensures Need(WrapCst(c, m)) == Need(c)
    ensures Ast(WrapCst(c, m)) == WrapExpr(Ast(c), m)
  {
    hide OpLevel;
    match c
    case CVar =>
    case CNum(_) =>
    case CNot(e) => WrapCstShape(e, m);
    case CBin(_, l, r) =>
      WrapCstShape(l, m);
      WrapCstShape(r, m);
    case CCond(b, t, f) =>
      WrapCstShape(b, m);
      WrapCstShape(t, m);
      WrapCstShape(f, m);
    case CParen(e) => WrapCstShape(e, m);
  }

  lemma WrapAround(a: seq<Token>, t: Token, b: seq<Token>, m: nat)
    requires m > 0
    ensures WrapTokens(a + [t] + b, m) == WrapTokens(a, m) + [WrapToken(t, m)] + WrapTokens(b, m)
  {
    hide WrapToken;
    WrapTokensOne(t, m);
    WrapTokensAppend(a, [t], m);
    WrapTokensAppend(a + [t], b, m);
  }

  lemma {:induction false} WrapCstYield(c: Cst, m: nat)
    requires m > 0
    ensures Yield(WrapCst(c, m)) == WrapTokens(Yield(c), m)
  {
    hide WrapTokens;
    match c
    case CVar => WrapTokensOne(Yield(c)[0], m);
    case CNum(_) => WrapTokensOne(Yield(c)[0], m);
    case CNot(e) =>
      WrapCstYield(e, m);
      WrapTokensOne(Yield(c)[0], m);
      WrapTokensAppend([Yield(c)[0]], Yield(e), m);
    case CBin(op, l, r) =>
      WrapCstYield(l, m);
      WrapCstYield(r, m);
      WrapOperator(op, m);
      WrapAround(Yield(l), OpToken(op), Yield(r), m);
    case CCond(b, t, f) =>
      WrapCstYield(b, m);
      WrapCstYield(t, m);
      WrapCstYield(f, m);
      var q, d := Token(Code('?'), Unset), Token(Code(':'), Unset);
      WrapAround(Yield(b), q, Yield(t), m);
      WrapAround(Yield(b) + [q] + Yield(t), d, Yield(f), m);
    case CParen(e) =>
      WrapCstYield(e, m);
      var open, close := Token(Code('('), Unset), Token(Code(')'), Unset);
      WrapTokensOne(open, m);
      WrapTokensAppend([open], Yield(e), m);
      WrapTokensOne(close, m);
      WrapTokensAppend([open] + Yield(e), [close], m);
  }

  // ----- Text in, tree out -----

  /** The tree of `c` with its numbers modulo `m`, or a stack overflow if `c` is nested too deeply. */
  function TextVerdict(c: Cst, m: nat): ParseResult
    requires m > 0
  {
    if 1 + Need(c) < YYMAXDEPTH then ParseResult(0, Some(WrapExpr(Ast(c), m))) else ParseResult(2, None)
  }

  /** Any derivation, written with any blanks between its tokens and read up to a terminator,
      is parsed to the tree that it denotes. */
  lemma TextParses(c: Cst, gaps: seq<string>, tail: string, m: nat)
    requires m > 0 && WellFormed(c)
    requires |gaps| == |Yield(c)| + 1 && AllBlank(gaps) && Terminator(tail) && AllWritable(Yield(c))
    ensures HaltsWith(Init(LexAll(Render(Yield(c), gaps) + tail, m)), TextVerdict(c, m))
  {
    hide HaltsWith;
    YieldSentence(c);
    LexRendered(Yield(c), gaps, tail, m);
    WrapCstShape(c, m);
    WrapCstYield(c, m);
    ParserComplete(WrapCst(c, m));
  }

  /** `e` written with the parentheses it needs and no blanks. */
  function Print(e: Expr): string {
    YieldSentence(Parenthesize(e));
    Render(Yield(Parenthesize(e)), seq(|Yield(Parenthesize(e))| + 1, _ => ""))
  }

  /** Printing and parsing gives back the tree, with its numbers modulo the machine word, unless
      its nesting exceeds the parser's stack. */
  lemma PrintParses(e: Expr, m: nat, r: ParseResult)
    requires m > 0 && HaltsWith(Init(LexAll(Print(e), m)), r)
    ensures r == if 1 + Need(Parenthesize(e)) < YYMAXDEPTH
                 then ParseResult(0, Some(WrapExpr(e, m))) else ParseResult(2, None)
  {
    hide HaltsWith, Parenthesize, Yield, Render, WellFormed, Separable, TokenOk, LexAll, Need;
    var c := Parenthesize(e);
    ParenthesizeCorrect(e);
    YieldSentence(c);
    var gaps := seq(|Yield(c)| + 1, _ => "");
    TextParses(c, gaps, "", m);
    assert Render(Yield(c), gaps) + "" == Print(e);
    HaltsOnce(Init(LexAll(Print(e), m)), r, TextVerdict(c, m));
  }
}
