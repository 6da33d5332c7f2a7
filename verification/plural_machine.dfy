/** The bison shift/reduce driver as a transition system over its two stacks and its input. */
module PluralMachine {
  import opened Options
  import opened PluralGrammar
  import opened PluralTables

  const YYMAXDEPTH := 10000

  /** What `yyparse` returns, with `((struct parse_args *) arg)->res`. */
  datatype ParseResult = ParseResult(code: int, res: Option<Expr>)

  /** `states` is `yyss`, `vals` is `yyvs`; `input` holds the lookahead and all tokens that
      `yylex` will still return, the last one being the end marker. */
  datatype Config = Config(states: seq<int>, vals: seq<Value>, input: seq<Token>, res: Option<Expr>)

  /** `Stuck` marks a stack underflow or a read of the wrong member of `YYSTYPE`. */
  datatype Outcome = Running(c: Config) | Done(result: ParseResult) | Stuck

  function Init(tokens: seq<Token>): Outcome {
    Running(Config([0], [Unset], tokens, None))
  }

  function Symbol(t: Token): int { YyTranslate(t.code) }

  /** `yynewstate`: push a state, then check the stack size. */
  function Push(c: Config, state: int): Outcome {
    if |c.states| + 1 >= YYMAXDEPTH then Done(ParseResult(2, c.res))
    else Running(c.(states := c.states + [state]))
  }

  /** The value of `yyval` after the action of `rule`, from its right-hand side `v`. */
  function RuleValue(rule: int, v: seq<Value>): Option<Value>
    requires |v| == YyR2(rule)
  {
    match rule
    case 1 => if v[0].ExpV? then Some(v[0]) else None
    case 2 => if v[0].ExpV? && v[2].ExpV? && v[4].ExpV?
              then Some(ExpV(QMop(v[0].exp, v[2].exp, v[4].exp))) else None
    case 3 => if v[0].ExpV? && v[2].ExpV? then Some(ExpV(Binary(LOr, v[0].exp, v[2].exp))) else None
    case 4 => if v[0].ExpV? && v[2].ExpV? then Some(ExpV(Binary(LAnd, v[0].exp, v[2].exp))) else None
    case 9 => if v[1].ExpV? then Some(ExpV(LNot(v[1].exp))) else None
    case 10 => Some(ExpV(Var))
    case 11 => if v[0].NumV? then Some(ExpV(Num(v[0].num))) else None
    case 12 => if v[1].ExpV? then Some(v[1]) else None
    case 0 => None
    case _ => if v[0].ExpV? && v[1].OpV? && v[2].ExpV?
              then Some(ExpV(Binary(v[1].op, v[0].exp, v[2].exp))) else None
  }

  /** `yyreduce`. */
  function ReduceBy(c: Config, rule: int): Outcome {
    var len := YyR2(rule);
    if |c.states| <= len || |c.vals| != |c.states| then Stuck
    else
      var base := |c.states| - len;
      match RuleValue(rule, c.vals[base..])
      case None => Stuck
      case Some(v) =>
        var res := if rule == 1 && v.ExpV? then Some(v.exp) else c.res;
        Push(Config(c.states[..base], c.vals[..base] + [v], c.input, res), GotoOf(rule, c.states[base - 1]))
  }

  /** One turn of the driver, from `yybackup` to the next pushed state. The end marker is never
      discarded. An error unwinds the whole stack, since no state shifts the error token. */
  function Step(c: Config): Outcome {
    if c.states == [] || c.input == [] then Stuck
    else
      match ActionOf(c.states[|c.states| - 1], Symbol(c.input[0]))
      case Accept => Done(ParseResult(0, c.res))
      case Error => Done(ParseResult(1, c.res))
      case Reduce(rule) => ReduceBy(c, rule)
      case Shift(q) =>
        Push(c.(vals := c.vals + [c.input[0].val],
                input := if c.input[0].code == YYEOF then c.input else c.input[1..]), q)
  }

  function Iterate(o: Outcome, n: nat): Outcome
    decreases n
  {
    if n == 0 || !o.Running? then o else Iterate(Step(o.c), n - 1)
  }

  ghost predicate HaltsWith(o: Outcome, r: ParseResult) {
    exists n: nat :: Iterate(o, n) == Done(r)
  }

  lemma {:induction false} IterateAdd(o: Outcome, n: nat, m: nat)
    ensures Iterate(o, n + m) == Iterate(Iterate(o, n), m)
    decreases n
  {
    hide Step;
    if n > 0 && o.Running? {
      IterateAdd(Step(o.c), n - 1, m);
    }
  }

  lemma IterateStopped(o: Outcome, n: nat)
    requires !o.Running?
    ensures Iterate(o, n) == o
  {
  }

  /** The machine has at most one result. */
  lemma {:induction false} HaltsOnce(o: Outcome, r1: ParseResult, r2: ParseResult)
    requires HaltsWith(o, r1) && HaltsWith(o, r2)
    ensures r1 == r2
  {
    var n: nat :| Iterate(o, n) == Done(r1);
    var m: nat :| Iterate(o, m) == Done(r2);
    IterateAdd(o, n, m);
    IterateAdd(o, m, n);
    IterateStopped(Done(r1), m);
    IterateStopped(Done(r2), n);
    assert n + m == m + n;
  }

  lemma HaltsStep(c: Config, r: ParseResult)
    requires HaltsWith(Step(c), r)
    ensures HaltsWith(Running(c), r)
  {
    var n: nat :| Iterate(Step(c), n) == Done(r);
    assert Iterate(Running(c), n + 1) == Done(r);
  }
}
