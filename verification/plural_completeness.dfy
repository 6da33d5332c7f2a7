/** The driver parses every sentence of the precedence grammar, as deep as its stack allows. */
module PluralCompleteness {
  import opened Options
  import opened PluralGrammar
  import opened PluralTables
  import opened PluralMachine
  import opened PluralSoundness

  function Max(a: nat, b: nat): nat { if a >= b then a else b }

  /** How many states the driver has on top of its stack, at most, while it parses `c`. */
  function Need(c: Cst): (n: nat)
    ensures n >= 1
  {
    match c
    case CVar | CNum(_) => 1
    case CNot(e) => 1 + Need(e)
    case CBin(_, l, r) => Max(Need(l), 2 + Need(r))
    case CCond(b, t, f) => Max(Need(b), Max(2 + Need(t), 4 + Need(f)))
    case CParen(e) => Max(1 + Need(e), 3)
  }

  ghost predicate Reaches(o1: Outcome, o2: Outcome) {
    exists n: nat :: Iterate(o1, n) == o2
  }

  lemma ReachesSelf(o: Outcome)
    ensures Reaches(o, o)
  {
    assert Iterate(o, 0) == o;
  }

  lemma ReachesStep(c: Config)
    ensures Reaches(Running(c), Step(c))
  {
    hide Step;
    assert Iterate(Step(c), 0) == Step(c);
    assert Iterate(Running(c), 1) == Step(c);
  }

  lemma ReachesTrans(o1: Outcome, o2: Outcome, o3: Outcome)
    requires Reaches(o1, o2) && Reaches(o2, o3)
    ensures Reaches(o1, o3)
  {
    hide Step;
    var n: nat :| Iterate(o1, n) == o2;
    var m: nat :| Iterate(o2, m) == o3;
    IterateAdd(o1, n, m);
    assert Iterate(o1, n + m) == o3;
  }

  function Overflow(res: Option<Expr>): Outcome { Done(ParseResult(2, res)) }

  ghost predicate ConfigOk(states: seq<int>, vals: seq<Value>) {
    0 < |states| == |vals| < YYMAXDEPTH
  }

  /** The driver shifts `tok`. */
  lemma RunShift(states: seq<int>, vals: seq<Value>, tok: Token, rest: seq<Token>, res: Option<Expr>, q: int)
    requires ConfigOk(states, vals) && tok.code != YYEOF
    requires ActionOf(states[|states| - 1], Symbol(tok)) == Shift(q)
    ensures Reaches(Running(Config(states, vals, [tok] + rest, res)),
                    if |states| + 1 < YYMAXDEPTH then Running(Config(states + [q], vals + [tok.val], rest, res))
                    else Overflow(res))
  {
    hide ActionOf, YyTranslate, Step;
    var c := Config(states, vals, [tok] + rest, res);
    StepOfShift(c, q);
    assert c.input[1..] == rest;
    ReachesStep(c);
  }

  /** The driver shifts `tok` on top of an operand. */
  lemma RunShiftOnto(states: seq<int>, vals: seq<Value>, g: int, v: Value, tok: Token, rest: seq<Token>,
                     res: Option<Expr>, q: int)
    requires |states| == |vals| && |states| + 1 < YYMAXDEPTH
    requires ActionOf(g, Symbol(tok)) == Shift(q) && tok.code != YYEOF
    ensures Reaches(Running(Config(states + [g], vals + [v], [tok] + rest, res)),
                    if |states| + 2 < YYMAXDEPTH
                    then Running(Config(states + [g, q], vals + [v, tok.val], rest, res)) else Overflow(res))
  {
    hide ActionOf, YyTranslate, Reaches;
    RunShift(states + [g], vals + [v], tok, rest, res, q);
    assert states + [g] + [q] == states + [g, q] && vals + [v] + [tok.val] == vals + [v, tok.val];
  }

  /** The driver reduces the states `top` and values `args` by `rule`. */
  lemma RunReduce(states: seq<int>, vals: seq<Value>, top: seq<int>, args: seq<Value>,
                  input: seq<Token>, res: Option<Expr>, rule: int, v: Value)
    requires ConfigOk(states, vals) && ConfigOk(states + top, vals + args) && input != []
    requires 2 <= rule <= 12 && |top| == |args| == YyR2(rule)
    requires ActionOf(top[|top| - 1], Symbol(input[0])) == Reduce(rule)
    requires RuleValue(rule, args) == Some(v) && v.ExpV? && Expecting(states[|states| - 1])
    ensures Reaches(Running(Config(states + top, vals + args, input, res)),
                    Running(Config(states + [AfterOperand(states[|states| - 1])], vals + [v], input, res)))
  {
    hide ActionOf, YyTranslate, RuleValue, GotoOf, Step;
    var c := Config(states + top, vals + args, input, res);
    assert c.vals[|states|..] == args;
    assert c.states[..|states|] == states && c.vals[..|states|] == vals;
    GotoAction(rule, states[|states| - 1]);
    StepOfReduce(c, rule, |states|, v);
    ReachesStep(c);
  }

  /** Where the driver is after parsing `c` on top of `states`. */
  function After(c: Cst, states: seq<int>, vals: seq<Value>, rest: seq<Token>, res: Option<Expr>): Outcome
    requires |states| > 0 && Expecting(states[|states| - 1])
  {
    if |states| + Need(c) < YYMAXDEPTH
    then Running(Config(states + [AfterOperand(states[|states| - 1])], vals + [ExpV(Ast(c))], rest, res))
    else Overflow(res)
  }

  /** `c` may be parsed in this configuration, with `rest` following. */
  ghost predicate Parsable(c: Cst, states: seq<int>, vals: seq<Value>, rest: seq<Token>) {
    && ConfigOk(states, vals) && Expecting(states[|states| - 1])
    && WellFormed(c) && Level(c) >= MinLevel(states[|states| - 1])
    && rest != [] && IsSymbol(Symbol(rest[0])) && Closed(c, Symbol(rest[0]))
  }

  lemma StackTop(c: Cst, states: seq<int>, vals: seq<Value>, rest: seq<Token>)
    requires Parsable(c, states, vals, rest)
    ensures |states| > 0 && Expecting(states[|states| - 1]) && rest != []
  {
  }

  lemma RunLeaf(c: Cst, states: seq<int>, vals: seq<Value>, rest: seq<Token>, res: Option<Expr>)
    requires c.CVar? || c.CNum?
    requires Parsable(c, states, vals, rest)
    ensures Reaches(Running(Config(states, vals, Yield(c) + rest, res)), After(c, states, vals, rest, res))
  {
    hide ActionOf, Step, Closed, Reaches;
    var tok, q, rule := Yield(c)[0], if c.CVar? then 3 else 2, if c.CVar? then 10 else 11;
    assert Yield(c) == [tok];
    ExpectingAction(states[|states| - 1], Symbol(tok));
    RunShift(states, vals, tok, rest, res, q);
    if |states| + 1 < YYMAXDEPTH {
      OtherAction(q, Symbol(rest[0]));
      RunReduce(states, vals, [q], [tok.val], rest, res, rule, ExpV(Ast(c)));
      ReachesTrans(Running(Config(states, vals, [tok] + rest, res)),
                   Running(Config(states + [q], vals + [tok.val], rest, res)),
                   After(c, states, vals, rest, res));
    }
  }

  lemma PunctuationSymbols()
    ensures Symbol(Token(Code('!'), Unset)) == 10 && Symbol(Token(Code('('), Unset)) == 14
    ensures Symbol(Token(Code(')'), Unset)) == 15 && Symbol(Token(Code('?'), Unset)) == 3
    ensures Symbol(Token(Code(':'), Unset)) == 12
  {
  }

  lemma {:induction false} RunNot(c: Cst, states: seq<int>, vals: seq<Value>, rest: seq<Token>, res: Option<Expr>)
    requires c.CNot?
    requires Parsable(c, states, vals, rest)
    ensures Reaches(Running(Config(states, vals, Yield(c) + rest, res)), After(c, states, vals, rest, res))
    decreases c, 0
  {
    hide ActionOf, Step, Reaches, Iterate, YyTranslate;
    PunctuationSymbols();
    var tok := Token(Code('!'), Unset);
    var o := Running(Config(states, vals, Yield(c) + rest, res));
    assert Yield(c) + rest == [tok] + (Yield(c.right) + rest);
    ExpectingAction(states[|states| - 1], Symbol(tok));
    RunShift(states, vals, tok, Yield(c.right) + rest, res, 1);
    if |states| + 1 < YYMAXDEPTH {
      var states1, vals1 := states + [1], vals + [Unset];
      RunExp(c.right, states1, vals1, rest, res);
      ReachesTrans(o, Running(Config(states1, vals1, Yield(c.right) + rest, res)),
                   After(c.right, states1, vals1, rest, res));
      if |states| + Need(c) < YYMAXDEPTH {
        var v := ExpV(Ast(c.right));
        AfterOperandAction(1, Symbol(rest[0]));
        assert states1 + [6] == states + [1, 6] && vals1 + [v] == vals + [Unset, v];
        RunReduce(states, vals, [1, 6], [Unset, v], rest, res, 9, ExpV(Ast(c)));
        ReachesTrans(o, Running(Config(states + [1, 6], vals + [Unset, v], rest, res)),
                     After(c, states, vals, rest, res));
      }
    }
  }

  lemma {:induction false} RunExp(c: Cst, states: seq<int>, vals: seq<Value>, rest: seq<Token>, res: Option<Expr>)
    requires Parsable(c, states, vals, rest)
    ensures Reaches(Running(Config(states, vals, Yield(c) + rest, res)), After(c, states, vals, rest, res))
    decreases c, 3
  {
    hide *;
    match c
    case CVar => RunLeaf(c, states, vals, rest, res);
    case CNum(_) => RunLeaf(c, states, vals, rest, res);
    case CNot(_) => RunNot(c, states, vals, rest, res);
    case CBin(_, _, _) => RunBin(c, states, vals, rest, res);
    case CCond(_, _, _) => RunCond(c, states, vals, rest, res);
    case CParen(_) => RunParen(c, states, vals, rest, res);
  }

  lemma {:induction false} RunParen(c: Cst, states: seq<int>, vals: seq<Value>, rest: seq<Token>, res: Option<Expr>)
    requires c.CParen?
    requires Parsable(c, states, vals, rest)
    ensures Reaches(Running(Config(states, vals, Yield(c) + rest, res)), After(c, states, vals, rest, res))
    decreases c, 0
  {
    hide ActionOf, Step, Reaches, Iterate, YyTranslate;
    PunctuationSymbols();
    var open, close := Token(Code('('), Unset), Token(Code(')'), Unset);
    var o := Running(Config(states, vals, Yield(c) + rest, res));
    var rest1 := [close] + rest;
    assert Yield(c) + rest == [open] + (Yield(c.inner) + rest1);
    ExpectingAction(states[|states| - 1], Symbol(open));
    RunShift(states, vals, open, Yield(c.inner) + rest1, res, 4);
    if |states| + 1 < YYMAXDEPTH {
      var states1, vals1 := states + [4], vals + [Unset];
      RunExp(c.inner, states1, vals1, rest1, res);
      ReachesTrans(o, Running(Config(states1, vals1, Yield(c.inner) + rest1, res)),
                   After(c.inner, states1, vals1, rest1, res));
      if |states1| + Need(c.inner) < YYMAXDEPTH {
        var v := ExpV(Ast(c.inner));
        AfterOperandAction(4, Symbol(close));
        RunShift(states1 + [7], vals1 + [v], close, rest, res, 15);
        var o2 := if |states| + 3 < YYMAXDEPTH
                  then Running(Config(states1 + [7] + [15], vals1 + [v] + [Unset], rest, res)) else Overflow(res);
        ReachesTrans(o, After(c.inner, states1, vals1, rest1, res), o2);
        if |states| + 3 < YYMAXDEPTH {
          OtherAction(15, Symbol(rest[0]));
          assert states1 + [7] + [15] == states + [4, 7, 15] && vals1 + [v] + [Unset] == vals + [Unset, v, Unset];
          RunReduce(states, vals, [4, 7, 15], [Unset, v, Unset], rest, res, 12, v);
          ReachesTrans(o, o2, After(c, states, vals, rest, res));
        }
      }
    }
  }

  lemma OpTokenFacts(op: Operator)
    ensures Symbol(OpToken(op)) == OpLevel(op) + 3 && 1 <= OpLevel(op) <= 6 && OpToken(op).code != YYEOF
  {
  }

  /** The tokens from the operator of `c` on. */
  function OperatorOn(c: Cst, rest: seq<Token>): (ts: seq<Token>)
    requires c.CBin?
    ensures ts != [] && ts[0] == OpToken(c.op)
    ensures Yield(c) + rest == Yield(c.left) + ts
  {
    [OpToken(c.op)] + (Yield(c.right) + rest)
  }

  /** What the tables do with an operator and, once its right operand is there, with the operation. */
  lemma BinActions(c: Cst, s: int, t: int)
    requires c.CBin? && Expecting(s) && Level(c) >= MinLevel(s) && IsSymbol(t) && Closed(c, t)
    ensures var k := OpLevel(c.op);
            && ActionOf(AfterOperand(s), Symbol(OpToken(c.op))) == Shift(k + 8)
            && Expecting(k + 8) && MinLevel(k + 8) == k + 1 && AfterOperand(k + 8) == k + 16
            && ActionOf(k + 16, t) == Reduce(k + 2)
  {
    hide ActionOf, YyTranslate;
    OpTokenFacts(c.op);
    AfterOperandAction(s, OpLevel(c.op) + 3);
    AfterOperandAction(OpLevel(c.op) + 8, t);
  }

  /** The rule that builds an operation. */
  lemma BinRule(op: Operator, l: Expr, r: Expr)
    ensures YyR2(OpLevel(op) + 2) == 3 && 2 <= OpLevel(op) + 2 <= 12
    ensures RuleValue(OpLevel(op) + 2, [ExpV(l), OpToken(op).val, ExpV(r)]) == Some(ExpV(Binary(op, l, r)))
  {
  }

  lemma RightOperand(c: Cst, states: seq<int>, vals: seq<Value>, rest: seq<Token>)
    requires c.CBin?
    requires Parsable(c, states, vals, rest) && |states| + 2 < YYMAXDEPTH
    ensures AfterOperand(OpLevel(c.op) + 8) == OpLevel(c.op) + 16
    ensures var g, q := AfterOperand(states[|states| - 1]), OpLevel(c.op) + 8;
            Parsable(c.right, states + [g, q], vals + [ExpV(Ast(c.left)), OpToken(c.op).val], rest)
  {
    hide ActionOf, YyTranslate, OpToken, Ast, AfterOperand, MinLevel, Need;
    BinActions(c, states[|states| - 1], Symbol(rest[0]));
  }

  /** The operator is shifted, and its right operand may then be parsed. */
  lemma RunOperator(c: Cst, states: seq<int>, vals: seq<Value>, rest: seq<Token>, res: Option<Expr>)
    requires c.CBin?
    requires Parsable(c, states, vals, rest) && |states| + 1 < YYMAXDEPTH
    ensures var g, q := AfterOperand(states[|states| - 1]), OpLevel(c.op) + 8;
            var l, o := ExpV(Ast(c.left)), OpToken(c.op).val;
            Reaches(Running(Config(states + [g], vals + [l], OperatorOn(c, rest), res)),
                    if |states| + 2 < YYMAXDEPTH
                    then Running(Config(states + [g, q], vals + [l, o], Yield(c.right) + rest, res)) else Overflow(res))
  {
    hide ActionOf, Step, Reaches, Iterate, YyTranslate, Yield, Ast, Need, OpLevel, OpToken, Closed, AfterOperand,
      MinLevel, WellFormed, Level;
    BinActions(c, states[|states| - 1], Symbol(rest[0]));
    OpTokenFacts(c.op);
    RunShiftOnto(states, vals, AfterOperand(states[|states| - 1]), ExpV(Ast(c.left)), OpToken(c.op),
                 Yield(c.right) + rest, res, OpLevel(c.op) + 8);
  }

  /** With the right operand complete, the operation is reduced. */
  lemma BinParsable(c: Cst, states: seq<int>, vals: seq<Value>, rest: seq<Token>)
    requires c.CBin?
    requires Parsable(c, states, vals, rest)
    ensures ConfigOk(states, vals) && rest != [] && Expecting(states[|states| - 1])
    ensures Ast(c) == Binary(c.op, Ast(c.left), Ast(c.right))
    ensures ActionOf(OpLevel(c.op) + 16, Symbol(rest[0])) == Reduce(OpLevel(c.op) + 2)
  {
    hide ActionOf, YyTranslate, OpLevel, OpToken, AfterOperand, Closed, WellFormed, Level, MinLevel, IsSymbol;
    BinActions(c, states[|states| - 1], Symbol(rest[0]));
  }

  lemma RunOperation(c: Cst, states: seq<int>, vals: seq<Value>, rest: seq<Token>, res: Option<Expr>)
    requires c.CBin?
    requires Parsable(c, states, vals, rest) && |states| + 3 < YYMAXDEPTH
    ensures var g, q := AfterOperand(states[|states| - 1]), OpLevel(c.op) + 8;
            Reaches(Running(Config(states + [g, q] + [q + 8],
                                   vals + [ExpV(Ast(c.left)), OpToken(c.op).val] + [ExpV(Ast(c.right))], rest, res)),
                    Running(Config(states + [g], vals + [ExpV(Ast(c))], rest, res)))
  {
    StackTop(c, states, vals, rest);
    BinParsable(c, states, vals, rest);
    hide ActionOf, Step, Reaches, Iterate, YyTranslate, Yield, RuleValue, YyR2, OpLevel, OpToken, Closed, WellFormed,
      AfterOperand, MinLevel, Ast, Parsable, Expecting, IsSymbol;
    BinRule(c.op, Ast(c.left), Ast(c.right));
    var g, q := AfterOperand(states[|states| - 1]), OpLevel(c.op) + 8;
    var l, o, r := ExpV(Ast(c.left)), OpToken(c.op).val, ExpV(Ast(c.right));
    assert states + [g, q] + [q + 8] == states + [g, q, q + 8] && vals + [l, o] + [r] == vals + [l, o, r];
    RunReduce(states, vals, [g, q, q + 8], [l, o, r], rest, res, q - 6, ExpV(Ast(c)));
  }

  /** How deep the stack grows in a binary operation. */
  lemma BinNeed(c: Cst, states: seq<int>, vals: seq<Value>, rest: seq<Token>)
    requires c.CBin?
    requires Parsable(c, states, vals, rest)
    ensures Parsable(c.left, states, vals, OperatorOn(c, rest))
    ensures Need(c) == Max(Need(c.left), 2 + Need(c.right)) && Need(c.left) >= 1 && Need(c.right) >= 1
  {
    hide Yield;
    OpTokenFacts(c.op);
  }

  lemma {:induction false} RunBin(c: Cst, states: seq<int>, vals: seq<Value>, rest: seq<Token>, res: Option<Expr>)
    requires c.CBin?
    requires Parsable(c, states, vals, rest)
    ensures Reaches(Running(Config(states, vals, Yield(c) + rest, res)), After(c, states, vals, rest, res))
    decreases c, 1
  {
    StackTop(c, states, vals, rest);
    hide Step, Reaches, Iterate, Yield, Parsable, AfterOperand, Ast, Need, OperatorOn, OpToken, OpLevel, Expecting;
    var start, rest1 := Running(Config(states, vals, Yield(c) + rest, res)), OperatorOn(c, rest);
    BinNeed(c, states, vals, rest);
    RunExp(c.left, states, vals, rest1, res);
    if |states| + Need(c.left) < YYMAXDEPTH {
      var g, q, o := AfterOperand(states[|states| - 1]), OpLevel(c.op) + 8, OpToken(c.op).val;
      var states2, vals2 := states + [g, q], vals + [ExpV(Ast(c.left)), o];
      RunOperator(c, states, vals, rest, res);
      ReachesTrans(start, Running(Config(states + [g], vals + [ExpV(Ast(c.left))], rest1, res)),
                   if |states| + 2 < YYMAXDEPTH
                   then Running(Config(states2, vals2, Yield(c.right) + rest, res)) else Overflow(res));
      if |states| + 2 < YYMAXDEPTH {
        RightOperand(c, states, vals, rest);
        RunOn(start, c.right, states2, vals2, rest, res);
        if |states2| + Need(c.right) < YYMAXDEPTH {
          RunOperation(c, states, vals, rest, res);
          ReachesTrans(start, After(c.right, states2, vals2, rest, res), After(c, states, vals, rest, res));
        }
      }
    }
  }

  /** The tokens from the colon of `c` on. */
  function ColonOn(c: Cst, rest: seq<Token>): (ts: seq<Token>)
    requires c.CCond?
    ensures ts != [] && ts[0] == Token(Code(':'), Unset)
  {
    [Token(Code(':'), Unset)] + (Yield(c.fbranch) + rest)
  }

  /** The tokens from the question mark of `c` on. */
  function QuestionOn(c: Cst, rest: seq<Token>): (ts: seq<Token>)
    requires c.CCond?
    ensures ts != [] && ts[0] == Token(Code('?'), Unset)
    ensures Yield(c) + rest == Yield(c.bexp) + ts
  {
    [Token(Code('?'), Unset)] + (Yield(c.tbranch) + ColonOn(c, rest))
  }

  /** The question mark is shifted, and the middle branch may then be parsed. */
  lemma RunQuestion(c: Cst, states: seq<int>, vals: seq<Value>, rest: seq<Token>, res: Option<Expr>)
    requires c.CCond?
    requires Parsable(c, states, vals, rest) && |states| + 1 < YYMAXDEPTH
    ensures var g, b := AfterOperand(states[|states| - 1]), ExpV(Ast(c.bexp));
            Reaches(Running(Config(states + [g], vals + [b], QuestionOn(c, rest), res)),
                    if |states| + 2 < YYMAXDEPTH
                    then Running(Config(states + [g, 8], vals + [b, Unset], Yield(c.tbranch) + ColonOn(c, rest), res))
                    else Overflow(res))
    ensures |states| + 2 < YYMAXDEPTH ==>
              Parsable(c.tbranch, states + [AfterOperand(states[|states| - 1]), 8], vals + [ExpV(Ast(c.bexp)), Unset],
                       ColonOn(c, rest))
  {
    hide ActionOf, Step, Reaches, Iterate, YyTranslate, Yield, ColonOn, Ast;
    PunctuationSymbols();
    var tok, s := Token(Code('?'), Unset), states[|states| - 1];
    AfterOperandAction(s, Symbol(tok));
    RunShiftOnto(states, vals, AfterOperand(s), ExpV(Ast(c.bexp)), tok, Yield(c.tbranch) + ColonOn(c, rest), res, 8);
  }

  /** The colon is shifted, and the last branch may then be parsed. */
  lemma RunColon(c: Cst, states: seq<int>, vals: seq<Value>, rest: seq<Token>, res: Option<Expr>)
    requires c.CCond?
    requires Parsable(c, states, vals, rest) && |states| + 3 < YYMAXDEPTH
    ensures var g, b, t := AfterOperand(states[|states| - 1]), ExpV(Ast(c.bexp)), ExpV(Ast(c.tbranch));
            Reaches(Running(Config(states + [g, 8] + [16], vals + [b, Unset] + [t], ColonOn(c, rest), res)),
                    if |states| + 4 < YYMAXDEPTH
                    then Running(Config(states + [g, 8, 16, 23], vals + [b, Unset, t, Unset],
                                        Yield(c.fbranch) + rest, res))
                    else Overflow(res))
    ensures |states| + 4 < YYMAXDEPTH ==>
              Parsable(c.fbranch, states + [AfterOperand(states[|states| - 1]), 8, 16, 23],
                       vals + [ExpV(Ast(c.bexp)), Unset, ExpV(Ast(c.tbranch)), Unset], rest)
  {
    hide ActionOf, Step, Reaches, Iterate, YyTranslate, Yield, Ast;
    PunctuationSymbols();
    var tok, g := Token(Code(':'), Unset), AfterOperand(states[|states| - 1]);
    var b, t := ExpV(Ast(c.bexp)), ExpV(Ast(c.tbranch));
    AfterOperandAction(8, Symbol(tok));
    RunShift(states + [g, 8] + [16], vals + [b, Unset] + [t], tok, Yield(c.fbranch) + rest, res, 23);
    assert states + [g, 8] + [16] + [23] == states + [g, 8, 16, 23];
    assert vals + [b, Unset] + [t] + [Unset] == vals + [b, Unset, t, Unset];
  }

  /** With the last branch complete, the choice is reduced. */
  lemma RunChoice(c: Cst, states: seq<int>, vals: seq<Value>, rest: seq<Token>, res: Option<Expr>)
    requires c.CCond?
    requires Parsable(c, states, vals, rest) && |states| + 5 < YYMAXDEPTH
    ensures var g := AfterOperand(states[|states| - 1]);
            var b, t, f := ExpV(Ast(c.bexp)), ExpV(Ast(c.tbranch)), ExpV(Ast(c.fbranch));
            Reaches(Running(Config(states + [g, 8, 16, 23] + [24], vals + [b, Unset, t, Unset] + [f], rest, res)),
                    Running(Config(states + [g], vals + [ExpV(Ast(c))], rest, res)))
  {
    hide ActionOf, Step, Reaches, Iterate, YyTranslate, Yield;
    var g, b, t, f := AfterOperand(states[|states| - 1]), ExpV(Ast(c.bexp)), ExpV(Ast(c.tbranch)), ExpV(Ast(c.fbranch));
    AfterOperandAction(23, Symbol(rest[0]));
    assert states + [g, 8, 16, 23] + [24] == states + [g, 8, 16, 23, 24];
    assert vals + [b, Unset, t, Unset] + [f] == vals + [b, Unset, t, Unset, f];
    RunReduce(states, vals, [g, 8, 16, 23, 24], [b, Unset, t, Unset, f], rest, res, 2, ExpV(Ast(c)));
  }

  /** How deep the stack grows in a choice. */
  lemma CondNeed(c: Cst, states: seq<int>, vals: seq<Value>, rest: seq<Token>)
    requires c.CCond?
    requires Parsable(c, states, vals, rest)
    ensures Parsable(c.bexp, states, vals, QuestionOn(c, rest))
    ensures Need(c) == Max(Need(c.bexp), Max(2 + Need(c.tbranch), 4 + Need(c.fbranch)))
    ensures Need(c.bexp) >= 1 && Need(c.tbranch) >= 1 && Need(c.fbranch) >= 1
    ensures AfterOperand(8) == 16 && AfterOperand(23) == 24
  {
    CondDepth(c);
    CondParsable(c, states, vals, rest);
    CondStates();
    hide *;
  }

  lemma CondDepth(c: Cst)
    requires c.CCond?
    ensures Need(c) == Max(Need(c.bexp), Max(2 + Need(c.tbranch), 4 + Need(c.fbranch)))
    ensures Need(c.bexp) >= 1 && Need(c.tbranch) >= 1 && Need(c.fbranch) >= 1
  {
    hide Max;
  }

  lemma CondStates()
    ensures AfterOperand(8) == 16 && AfterOperand(23) == 24
  {
  }

  lemma CondParsable(c: Cst, states: seq<int>, vals: seq<Value>, rest: seq<Token>)
    requires c.CCond?
    requires Parsable(c, states, vals, rest)
    ensures Parsable(c.bexp, states, vals, QuestionOn(c, rest))
  {
    hide Yield, QuestionOn, ConfigOk, Expecting, MinLevel, YyTranslate;
    PunctuationSymbols();
    QuestionCloses(c.bexp);
  }

  lemma QuestionCloses(c: Cst)
    requires Level(c) >= 1
    ensures IsSymbol(3) && Closed(c, 3)
  {
  }

  lemma {:induction false} RunCond(c: Cst, states: seq<int>, vals: seq<Value>, rest: seq<Token>, res: Option<Expr>)
    requires c.CCond?
    requires Parsable(c, states, vals, rest)
    ensures Reaches(Running(Config(states, vals, Yield(c) + rest, res)), After(c, states, vals, rest, res))
    decreases c, 2
  {
    StackTop(c, states, vals, rest);
    hide Step, Reaches, Iterate, Yield, Parsable, AfterOperand, Ast, Need, QuestionOn, ColonOn, Expecting;
    var start, g := Running(Config(states, vals, Yield(c) + rest, res)), AfterOperand(states[|states| - 1]);
    var b, t := ExpV(Ast(c.bexp)), ExpV(Ast(c.tbranch));
    CondNeed(c, states, vals, rest);
    RunExp(c.bexp, states, vals, QuestionOn(c, rest), res);
    if |states| + Need(c.bexp) < YYMAXDEPTH {
      RunQuestion(c, states, vals, rest, res);
      var states2, vals2, rest2 := states + [g, 8], vals + [b, Unset], ColonOn(c, rest);
      var second := Running(Config(states2, vals2, Yield(c.tbranch) + rest2, res));
      ReachesTrans(start, After(c.bexp, states, vals, QuestionOn(c, rest), res),
                   if |states| + 2 < YYMAXDEPTH then second else Overflow(res));
      if |states| + 2 < YYMAXDEPTH {
        RunOn(start, c.tbranch, states2, vals2, rest2, res);
        if |states2| + Need(c.tbranch) < YYMAXDEPTH {
          RunColon(c, states, vals, rest, res);
          var states4, vals4 := states + [g, 8, 16, 23], vals + [b, Unset, t, Unset];
          var third := Running(Config(states4, vals4, Yield(c.fbranch) + rest, res));
          ReachesTrans(start, After(c.tbranch, states2, vals2, rest2, res),
                       if |states| + 4 < YYMAXDEPTH then third else Overflow(res));
          if |states| + 4 < YYMAXDEPTH {
            RunOn(start, c.fbranch, states4, vals4, rest, res);
            if |states4| + Need(c.fbranch) < YYMAXDEPTH {
              RunChoice(c, states, vals, rest, res);
              ReachesTrans(start, After(c.fbranch, states4, vals4, rest, res), After(c, states, vals, rest, res));
            }
          }
        }
      }
    }
  }

  /** A run that has come to `c` goes on past it. */
  lemma {:induction false} RunOn(start: Outcome, c: Cst, states: seq<int>, vals: seq<Value>, rest: seq<Token>,
                                 res: Option<Expr>)
    requires Parsable(c, states, vals, rest)
    requires Reaches(start, Running(Config(states, vals, Yield(c) + rest, res)))
    ensures |states| > 0 && Expecting(states[|states| - 1])
    ensures Reaches(start, After(c, states, vals, rest, res))
    decreases c, 4
  {
    StackTop(c, states, vals, rest);
    hide *;
    RunExp(c, states, vals, rest, res);
    ReachesTrans(start, Running(Config(states, vals, Yield(c) + rest, res)), After(c, states, vals, rest, res));
  }

  /** From the complete expression on: `start` is reduced and the end marker accepted. */
  lemma RunAccept(e: Expr)
    ensures Reaches(Running(Config([0, 5], [Unset, ExpV(e)], [EOF_TOKEN], None)), Done(ParseResult(0, Some(e))))
  {
    hide ActionOf, Reaches, Iterate, GotoOf;
    var c := Config([0, 5], [Unset, ExpV(e)], [EOF_TOKEN], None);
    AfterOperandAction(0, 0);
    GotoAction(1, 0);
    assert c.vals[1..] == [ExpV(e)] && c.vals[..1] == [Unset] && c.states[..1] == [0];
    StepOfReduce(c, 1, 1, ExpV(e));
    var c1 := Config([0] + [25], [Unset] + [ExpV(e)], [EOF_TOKEN], Some(e));
    assert Step(c) == Running(c1);
    OtherAction(25, 0);
    StepOfShift(c1, 26);
    var c2 := Config([0] + [25] + [26], [Unset] + [ExpV(e)] + [Unset], [EOF_TOKEN], Some(e));
    assert Step(c1) == Running(c2);
    OtherAction(26, 0);
    assert Step(c2) == Done(ParseResult(0, Some(e)));
    ReachesStep(c);
    ReachesStep(c1);
    ReachesStep(c2);
    ReachesTrans(Running(c), Running(c1), Running(c2));
    ReachesTrans(Running(c), Running(c2), Done(ParseResult(0, Some(e))));
  }

  /** What the driver returns on the sentence of `c`: its tree, unless `c` is nested so deeply
      that the stack would reach YYMAXDEPTH states. */
  function Verdict(c: Cst): ParseResult {
    if 1 + Need(c) < YYMAXDEPTH then ParseResult(0, Some(Ast(c))) else ParseResult(2, None)
  }

  lemma InitParsable(c: Cst)
    requires WellFormed(c)
    ensures Parsable(c, [0], [Unset], [EOF_TOKEN])
  {
    hide WellFormed;
  }

  lemma AfterInit(c: Cst)
    requires Expecting([0][|[0]| - 1])
    ensures After(c, [0], [Unset], [EOF_TOKEN], None)
            == if 1 + Need(c) < YYMAXDEPTH then Running(Config([0, 5], [Unset, ExpV(Ast(c))], [EOF_TOKEN], None))
               else Done(ParseResult(2, None))
  {
    hide Need, Ast;
    assert [0] + [5] == [0, 5] && [Unset] + [ExpV(Ast(c))] == [Unset, ExpV(Ast(c))];
  }

  lemma ReachesHalts(o: Outcome, r: ParseResult)
    requires Reaches(o, Done(r))
    ensures HaltsWith(o, r)
  {
    hide Iterate;
  }

  lemma ParserComplete(c: Cst)
    requires WellFormed(c)
    ensures HaltsWith(Init(Yield(c) + [EOF_TOKEN]), Verdict(c))
  {
    InitParsable(c);
    StackTop(c, [0], [Unset], [EOF_TOKEN]);
    hide Reaches, HaltsWith, Yield, Ast, Need, After, WellFormed, Parsable, Expecting;
    var o := Init(Yield(c) + [EOF_TOKEN]);
    RunExp(c, [0], [Unset], [EOF_TOKEN], None);
    AfterInit(c);
    if 1 + Need(c) < YYMAXDEPTH {
      RunAccept(Ast(c));
      ReachesTrans(o, Running(Config([0, 5], [Unset, ExpV(Ast(c))], [EOF_TOKEN], None)),
                   Done(ParseResult(0, Some(Ast(c)))));
    }
    ReachesHalts(o, Verdict(c));
  }
}
