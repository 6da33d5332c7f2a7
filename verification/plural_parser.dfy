/** `yylex` and `yyparse` as loops over their cursors and stacks; what they do with text is in `plural_text.dfy`. */
module PluralParser {
  import opened Arith
  import opened Digits
  import opened Options
  import opened PluralGrammar
  import opened PluralTables
  import opened PluralMachine
  import opened PluralSoundness
  import opened PluralCompleteness
  import opened PluralLexer
  import opened PluralSpelling

  const YYEMPTY := -2
  const YYINITDEPTH := 200

  // ----- yylex -----

  /** Reducing after every digit is reducing once at the end. */
  lemma WrapDigit(a: nat, d: nat, m: nat)
    requires m > 0
    ensures ((a % m) * 10 % m + d) % m == (a * 10 + d) % m
  {
    var q, r := a / m, a % m;
    var q2, r2 := r * 10 / m, r * 10 % m;
    var q3, r3 := (r2 + d) / m, (r2 + d) % m;
    assert a == q * m + r && r * 10 == q2 * m + r2 && r2 + d == q3 * m + r3;
    assert (q * 10 + q2 + q3) * m == 10 * (q * m) + q2 * m + q3 * m;
    ModUnique(a * 10 + d, q * 10 + q2 + q3, r3, m);
  }

  /** The character at the cursor. */
  function At(s: string, i: nat): (c: char)
    requires i <= |s|
    ensures c == First(s[i..])
  {
    if i < |s| then s[i] else '\0'
  }

  method SkipSpace(s: string, pos: nat) returns (exp: nat)
    requires pos <= |s|
    ensures pos <= exp <= |s| && s[exp..] == SkipBlanks(s[pos..])
  {
    exp := pos;
    while exp < |s| && s[exp] != '\0' && IsBlank(s[exp])
      invariant pos <= exp <= |s|
      invariant SkipBlanks(s[pos..]) == SkipBlanks(s[exp..])
    {
      assert s[exp..][1..] == s[exp + 1..];
      exp := exp + 1;
    }
  }

  lemma DecimalPush(s: string, lo: nat, hi: nat)
    requires lo <= hi < |s| && AllDigits(s[lo..hi]) && IsDigit(s[hi])
    ensures AllDigits(s[lo..hi + 1]) && Decimal(s[lo..hi + 1]) == Decimal(s[lo..hi]) * 10 + Digit(s[hi])
  {
    assert s[lo..hi + 1][..hi - lo] == s[lo..hi];
    assert s[lo..hi + 1] == s[lo..hi] + [s[hi]];
  }

  lemma {:induction false} DigitsLengthAt(s: string, lo: nat, hi: nat)
    requires lo <= hi <= |s| && AllDigits(s[lo..hi]) && !IsDigit(First(s[hi..]))
    ensures DigitsLength(s[lo..]) == hi - lo
  {
    assert s[lo..] == s[lo..hi] + s[hi..];
    DigitsLengthOver(s[lo..hi], s[hi..]);
  }

  /** One digit more, with `n` reduced on the way. */
  lemma NextDigit(s: string, pos: nat, exp: nat, n: nat, m: nat)
    requires m > 0 && pos <= exp < |s| && AllDigits(s[pos..exp]) && IsDigit(s[exp]) && n == Decimal(s[pos..exp]) % m
    ensures AllDigits(s[pos..exp + 1]) && (n * 10 % m + Digit(s[exp])) % m == Decimal(s[pos..exp + 1]) % m
  {
    DecimalPush(s, pos, exp);
    hide Decimal, AllDigits;
    WrapDigit(Decimal(s[pos..exp]), Digit(s[exp]), m);
  }

  lemma FirstDigit(s: string, pos: nat, m: nat)
    requires m >= 10 && pos < |s| && IsDigit(s[pos])
    ensures AllDigits(s[pos..pos + 1]) && Digit(s[pos]) == Decimal(s[pos..pos + 1]) % m
  {
    assert s[pos..pos] == "";
    DecimalPush(s, pos, pos);
  }

  /** The digit loop: `n` wraps like an `unsigned long`. */
  method ScanNumber(s: string, pos: nat, m: nat) returns (n: nat, exp: nat)
    requires m >= 10 && pos < |s| && IsDigit(s[pos])
    ensures pos < exp <= |s| && exp == pos + DigitsLength(s[pos..])
    ensures AllDigits(s[pos..exp]) && n == Decimal(s[pos..exp]) % m
  {
    hide Decimal, AllDigits, DigitsLength;
    FirstDigit(s, pos, m);
    exp := pos + 1;
    n := Digit(s[pos]);
    while IsDigit(At(s, exp))
      invariant pos < exp <= |s| && AllDigits(s[pos..exp]) && n == Decimal(s[pos..exp]) % m
      decreases |s| - exp
    {
      NextDigit(s, pos, exp, n, m);
      n := n * 10 % m;
      n := (n + Digit(s[exp])) % m;
      exp := exp + 1;
    }
    DigitsLengthAt(s, pos, exp);
  }

  /** The switch of `yylex` on characters that are neither digits nor end the input. */
  method ScanPunctuation(s: string, exp0: nat) returns (result: int, lval: Value, cp: nat)
    requires exp0 < |s| && s[exp0] != ';' && s[exp0] != '\n' && s[exp0] != '\0'
    ensures cp <= |s| && LexPunctuation(s[exp0..]) == Lexed(Token(result, lval), s[cp..])
  {
    var c, exp := s[exp0], exp0 + 1;
    ghost var t := s[exp0..];
    assert s[exp..] == t[1..];
    var next := At(s, exp);
    assert exp < |s| ==> s[exp + 1..] == t[2..];
    result, lval, cp := c as int, Unset, exp;
    match c {
      case '=' =>
        if next == '=' { cp, lval, result := exp + 1, OpV(Equal), EQUOP2; } else { result := YYERRCODE; }
      case '!' =>
        if next == '=' { cp, lval, result := exp + 1, OpV(NotEqual), EQUOP2; }
      case '&' =>
        if next == c { cp := exp + 1; } else { result := YYERRCODE; }
      case '|' =>
        if next == c { cp := exp + 1; } else { result := YYERRCODE; }
      case '<' =>
        if next == '=' { cp, lval := exp + 1, OpV(LessOrEqual); } else { lval := OpV(LessThan); }
        result := CMPOP2;
      case '>' =>
        if next == '=' { cp, lval := exp + 1, OpV(GreaterOrEqual); } else { lval := OpV(GreaterThan); }
        result := CMPOP2;
      case '*' => lval, result := OpV(Mult), MULOP2;
      case '/' => lval, result := OpV(Divide), MULOP2;
      case '%' => lval, result := OpV(Module), MULOP2;
      case '+' => lval, result := OpV(Plus), ADDOP2;
      case '-' => lval, result := OpV(Minus), ADDOP2;
      case 'n' =>
      case '?' =>
      case ':' =>
      case '(' =>
      case ')' =>
      case _ => result := YYERRCODE;
    }
  }

  method Yylex(s: string, pos: nat, m: nat) returns (result: int, lval: Value, cp: nat)
    requires m >= 10 && pos <= |s|
    ensures cp <= |s| && Lex(s[pos..], m) == Lexed(Token(result, lval), s[cp..])
  {
    hide Decimal, DigitsLength, SkipBlanks, AllDigits, LexPunctuation;
    var exp := SkipSpace(s, pos);
    if exp == |s| || s[exp] == '\0' || s[exp] == ';' || s[exp] == '\n' {
      return YYEOF, Unset, exp;
    }
    ghost var t := s[exp..];
    if IsDigit(s[exp]) {
      var n, e := ScanNumber(s, exp, m);
      assert t[..e - exp] == s[exp..e] && t[e - exp..] == s[e..];
      return NUMBER, NumV(n), e;
    }
    result, lval, cp := ScanPunctuation(s, exp);
  }

  // ----- yyparse -----

  /** The tokens that the driver has yet to deal with: the lookahead, if it was read, and what
      `yylex` will return. */
  function Pending(s: string, cp: nat, yychar: int, yylval: Value, m: nat): seq<Token>
    requires m > 0 && cp <= |s|
  {
    if yychar == YYEMPTY then LexAll(s[cp..], m)
    else if yychar == YYEOF then [EOF_TOKEN]
    else [Token(yychar, yylval)] + LexAll(s[cp..], m)
  }

  /** The lookahead variables as the driver leaves them. */
  predicate Lookahead(yychar: int, yylval: Value) {
    yychar == YYEMPTY || (yychar == YYEOF && yylval == Unset) || yychar > 0
  }

  lemma TokenCodes(t: Token)
    requires TokenOk(t)
    ensures t.code >= 0
  {
  }

  /** `yyerrlab` and `yyerrhandle`: no state shifts the error token, so every state is popped. */
  method Unwind(states: seq<int>) returns (code: int)
    requires states != []
    ensures code == 1
  {
    var yyss := states;
    while true
      invariant yyss != []
      decreases |yyss|
    {
      var yystate := yyss[|yyss| - 1];
      NoErrorShift(yystate);
      var yyn := YyPact(yystate);
      if yyn != YYFLAG {
        yyn := yyn + YYTERROR;
        if !(yyn < 0 || yyn > YYLAST || YyCheck(yyn) != YYTERROR) {
          assert false;
        }
      }
      if |yyss| == 1 {
        return 1;
      }
      yyss := yyss[..|yyss| - 1];
    }
  }

  /** The size that `yystacksize` gets when the stack is full; 0 for an overflow. */
  method GrowStack(yystacksize: nat, used: nat) returns (size: nat)
    requires YYINITDEPTH <= yystacksize <= YYMAXDEPTH && used <= yystacksize
    ensures size == 0 <==> used >= YYMAXDEPTH
    ensures size > 0 ==> YYINITDEPTH <= size <= YYMAXDEPTH && used < size
  {
    size := yystacksize;
    if used >= yystacksize {
      if yystacksize >= YYMAXDEPTH {
        return 0;
      }
      size := yystacksize * 2;
      if size > YYMAXDEPTH {
        size := YYMAXDEPTH;
      }
    }
  }

  lemma EofSymbol()
    ensures YyTranslate(YYEOF) == 0
  {
  }

  /** What to do next, decided as in `yybackup`: the lookahead is read only if the state asks for it. */
  method Decide(s: string, m: nat, yystate: int, cp0: nat, yychar0: int, yylval0: Value)
    returns (action: Action, cp: nat, yychar: int, yylval: Value)
    requires m >= 10 && cp0 <= |s| && Lookahead(yychar0, yylval0)
    ensures cp <= |s| && Lookahead(yychar, yylval)
    ensures Pending(s, cp, yychar, yylval, m) == Pending(s, cp0, yychar0, yylval0, m)
    ensures action == ActionOf(yystate, Symbol(Pending(s, cp, yychar, yylval, m)[0]))
    ensures action.Shift? || action.Accept? ==> yychar != YYEMPTY
  {
    hide YyPact, YyTable, YyCheck, YyDefact, YyTranslate, Lex, TokenOk;
    cp, yychar, yylval := cp0, yychar0, yylval0;
    var yyn := YyPact(yystate);
    if yyn == YYFLAG {
      action := DefaultAction(yystate);
      return;
    }
    if yychar == YYEMPTY {
      yychar, yylval, cp := Yylex(s, cp, m);
      LexOk(s[cp0..], m);
      TokenCodes(Token(yychar, yylval));
    }
    EofSymbol();
    var yychar1 := 0;
    if yychar <= 0 {
      yychar := YYEOF;
    } else {
      yychar1 := YyTranslate(yychar);
    }
    assert Symbol(Pending(s, cp, yychar, yylval, m)[0]) == yychar1;
    yyn := yyn + yychar1;
    if yyn < 0 || yyn > YYLAST || YyCheck(yyn) != yychar1 {
      action := DefaultAction(yystate);
      return;
    }
    yyn := YyTable(yyn);
    if yyn < 0 {
      action := if yyn == YYFLAG then Error else Reduce(-yyn);
    } else if yyn == 0 {
      action := Error;
    } else if yyn == YYFINAL {
      action := Accept;
    } else {
      action := Shift(yyn);
    }
  }

  lemma HaltsNow(s: string, m: nat, c: Config, r: ParseResult)
    requires m > 0 && Reaches(Init(LexAll(s, m)), Running(c)) && Step(c) == Done(r)
    ensures HaltsWith(Init(LexAll(s, m)), r) && Answers(s, m, r)
  {
    hide Step, LexAll, Answers;
    var o := Init(LexAll(s, m));
    ReachesStep(c);
    ReachesTrans(o, Running(c), Done(r));
    TextExact(s, m, r);
  }

  lemma ReachesNext(o: Outcome, c: Config)
    requires Reaches(o, Running(c))
    ensures Reaches(o, Step(c))
  {
    hide Step;
    ReachesStep(c);
    ReachesTrans(o, Running(c), Step(c));
  }

  /** The symbols that the grown stack stands for. */
  lemma NextSyms(c: Config, syms: seq<Sym>, all: seq<Token>) returns (syms': seq<Sym>)
    requires Inv(c, syms, all)
    ensures Step(c).Running? ==> Inv(Step(c).c, syms', all) && Measure(Step(c).c, syms') < Measure(c, syms)
    ensures !Step(c).Stuck?
  {
    hide Step, Inv, Measure, Derives;
    syms' := StepKeeps(c, syms, all);
  }

  lemma InvStack(c: Config, syms: seq<Sym>, all: seq<Token>)
    requires Inv(c, syms, all)
    ensures 0 < |c.states| == |c.vals|
  {
  }

  /** A reduction that does not get stuck has all its operands on the stack. */
  lemma ReduceDefined(c: Config, rule: int)
    requires c.states != [] && c.input != [] && |c.states| == |c.vals|
    requires ActionOf(c.states[|c.states| - 1], Symbol(c.input[0])) == Reduce(rule) && !Step(c).Stuck?
    ensures var base := |c.states| - YyR2(rule);
            && base > 0 && RuleValue(rule, c.vals[base..]).Some?
            && (rule == 1 ==> RuleValue(rule, c.vals[base..]).value.ExpV?)
            && Step(c) == Push(Config(c.states[..base], c.vals[..base] + [RuleValue(rule, c.vals[base..]).value],
                                      c.input, if rule == 1 then Some(RuleValue(rule, c.vals[base..]).value.exp)
                                      else c.res),
                               GotoOf(rule, c.states[base - 1]))
  {
    hide ActionOf, YyTranslate, GotoOf, YyR2;
  }

  lemma StepOfEnd(c: Config)
    requires c.states != [] && c.input != []
    ensures ActionOf(c.states[|c.states| - 1], Symbol(c.input[0])) == Accept ==> Step(c) == Done(ParseResult(0, c.res))
    ensures ActionOf(c.states[|c.states| - 1], Symbol(c.input[0])) == Error ==> Step(c) == Done(ParseResult(1, c.res))
  {
    hide ActionOf, YyTranslate;
  }

  /** `yyparse` on the text `s`: the loop computes what the transition system computes on the
      tokens of `s`, and so accepts exactly the texts of derivations that fit the stack. */
  method Yyparse(s: string, m: nat) returns (code: int, res: Option<Expr>)
    requires m >= 10
    ensures Answers(s, m, ParseResult(code, res))
    ensures HaltsWith(Init(LexAll(s, m)), ParseResult(code, res))
  {
    hide ActionOf, YyTranslate, YyR2, GotoOf, RuleValue, Step, Inv, Measure, Reaches, HaltsWith, Lex, TokenOk, Answers;
    ghost var tokens, syms := LexAll(s, m), [Bottom];
    var yyss, yyvs: seq<Value> := [0], [Unset];
    var yystacksize := YYINITDEPTH;
    var cp: nat, yychar, yylval := 0, YYEMPTY, Unset;
    res := None;
    assert s[0..] == s;
    LexAllOk(s, m);
    InitInv(tokens);
    ReachesSelf(Init(tokens));
    ghost var c := Init(tokens).c;
    while true
      invariant cp <= |s| && Lookahead(yychar, yylval)
      invariant c == Config(yyss, yyvs, Pending(s, cp, yychar, yylval, m), res)
      invariant Inv(c, syms, tokens) && Reaches(Init(tokens), Running(c))
      invariant |yyss| < yystacksize && YYINITDEPTH <= yystacksize <= YYMAXDEPTH
      decreases Measure(c, syms)
    {
      InvStack(c, syms, tokens);
      var yystate := yyss[|yyss| - 1];
      var action;
      action, cp, yychar, yylval := Decide(s, m, yystate, cp, yychar, yylval);
      StepOfEnd(c);
      ghost var syms' := NextSyms(c, syms, tokens);
      ReachesNext(Init(tokens), c);
      match action {
        case Accept =>
          HaltsNow(s, m, c, ParseResult(0, res));
          return 0, res;
        case Error =>
          HaltsNow(s, m, c, ParseResult(1, res));
          code := Unwind(yyss);
          return code, res;
        case Shift(q) =>
          StepOfShift(c, q);
          yyvs := yyvs + [yylval];
          if yychar != YYEOF {
            yychar := YYEMPTY;
          }
          yystate := q;
        case Reduce(rule) =>
          ReduceDefined(c, rule);
          var base := |yyss| - YyR2(rule);
          var yyval := RuleValue(rule, yyvs[base..]).value;
          if rule == 1 {
            res := Some(yyval.exp);
          }
          yyvs := yyvs[..base] + [yyval];
          yyss := yyss[..base];
          yystate := GotoOf(rule, yyss[|yyss| - 1]);
      }
      var size := GrowStack(yystacksize, |yyss| + 1);
      if size == 0 {
        HaltsNow(s, m, c, ParseResult(2, res));
        return 2, res;
      }
      yystacksize := size;
      yyss := yyss + [yystate];
      c, syms := Step(c).c, syms';
    }
  }
}
