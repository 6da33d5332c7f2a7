/** Every run of the driver stops, never gets stuck, and accepts only sentences of the grammar. */
module PluralSoundness {
  import opened Options
  import opened PluralGrammar
  import opened PluralTables
  import opened PluralMachine

  /** What a stack position stands for: the ghost counterpart of `yyvs`. */
  datatype Sym = Bottom | TokS(tok: Token) | ExpS(cst: Cst) | StartS(cst: Cst)

  function ValueOf(s: Sym): Value {
    match s
    case Bottom => Unset
    case TokS(t) => t.val
    case ExpS(c) => ExpV(Ast(c))
    case StartS(c) => ExpV(Ast(c))
  }

  function YieldOf(s: Sym): seq<Token> {
    match s
    case Bottom => []
    case TokS(t) => if t.code == YYEOF then [] else [t]
    case ExpS(c) => Yield(c)
    case StartS(c) => Yield(c)
  }

  /** The tokens that the stack has consumed. */
  function Consumed(syms: seq<Sym>): seq<Token> {
    if syms == [] then [] else Consumed(syms[..|syms| - 1]) + YieldOf(syms[|syms| - 1])
  }

  /** Tokens as `yylex` builds them. */
  predicate TokenOk(t: Token) {
    IsSymbol(Symbol(t)) && Symbol(t) != 2 &&
    (t.code != YYEOF ==> Symbol(t) != 0) &&
    match Symbol(t)
    case 6 => t.val == OpV(Equal) || t.val == OpV(NotEqual)
    case 7 => t.val.OpV? && OpLevel(t.val.op) == 4
    case 8 => t.val == OpV(Plus) || t.val == OpV(Minus)
    case 9 => t.val.OpV? && OpLevel(t.val.op) == 6
    case 11 => t.val.NumV?
    case _ => t.val == Unset
  }

  /** What `yylex` delivers up to and including the first end marker. */
  ghost predicate TokensOk(ts: seq<Token>) {
    |ts| > 0 && ts[|ts| - 1] == EOF_TOKEN &&
    (forall i :: 0 <= i < |ts| ==> TokenOk(ts[i])) &&
    (forall i :: 0 <= i < |ts| - 1 ==> ts[i].code != YYEOF)
  }

  /** `t` cannot extend `c` to the right. */
  predicate Closed(c: Cst, t: int) {
    match c
    case CCond(_, _, _) => TokenLevel(t) < 0
    case CBin(op, _, _) => TokenLevel(t) <= OpLevel(op)
    case _ => true
  }

  /** `sym` takes the automaton from state `s` to state `q`. */
  predicate Link(s: int, sym: Sym, q: int) {
    match sym
    case Bottom => false
    case TokS(t) => TokenOk(t) && ActionOf(s, Symbol(t)) == Shift(q)
    case ExpS(c) => Expecting(s) && q == AfterOperand(s) && WellFormed(c) && Level(c) >= MinLevel(s)
    case StartS(c) => s == 0 && q == 25 && WellFormed(c)
  }

  /** An operator on the stack is preceded by an operand that binds at least as strongly. */
  predicate OperandFits(left: Sym, sym: Sym) {
    sym.TokS? && TokenLevel(Symbol(sym.tok)) >= 0 ==>
      left.ExpS? && Level(left.cst) >= TokenLevel(Symbol(sym.tok)) && Level(left.cst) >= 1
  }

  ghost predicate StackOk(states: seq<int>, syms: seq<Sym>) {
    |states| == |syms| > 0 && states[0] == 0 && syms[0] == Bottom &&
    (forall i :: 0 < i < |states| ==> Link(states[i - 1], syms[i], states[i])) &&
    (forall i :: 0 < i < |states| ==> OperandFits(syms[i - 1], syms[i]))
  }

  ghost predicate ValuesOk(vals: seq<Value>, syms: seq<Sym>) {
    |vals| == |syms| && forall i :: 0 <= i < |vals| ==> vals[i] == ValueOf(syms[i])
  }

  /** The invariant of the driver while it parses `all`. */
  ghost predicate Inv(c: Config, syms: seq<Sym>, all: seq<Token>) {
    && |c.states| == |syms| > 0 && c.input != []
    && StackOk(c.states, syms)
    && ValuesOk(c.vals, syms)
    && TokensOk(c.input)
    && Consumed(syms) + c.input == all
    && (syms[|syms| - 1].ExpS? ==> Closed(syms[|syms| - 1].cst, Symbol(c.input[0])))
    && (|syms| > 1 && syms[1].StartS? ==> c.res == Some(Ast(syms[1].cst)))
  }

  // ----- What the top of the stack looks like -----

  /** States reached by an operand and states reached by a token are told apart by the state. */
  lemma LinkShape(s: int, sym: Sym, q: int)
    requires Link(s, sym, q) && 0 <= s <= 26
    ensures 0 < q <= 26
    ensures match q
            case 2 => sym.TokS? && Symbol(sym.tok) == 11 && Expecting(s)
            case 3 => sym.TokS? && Symbol(sym.tok) == 13 && Expecting(s)
            case 1 => sym.TokS? && Symbol(sym.tok) == 10 && Expecting(s)
            case 4 => sym.TokS? && Symbol(sym.tok) == 14 && Expecting(s)
            case 5 => sym.ExpS? && s == 0
            case 6 => sym.ExpS? && s == 1
            case 7 => sym.ExpS? && s == 4
            case 15 => sym.TokS? && Symbol(sym.tok) == 15 && s == 7
            case 16 => sym.ExpS? && s == 8
            case 23 => sym.TokS? && Symbol(sym.tok) == 12 && s == 16
            case 24 => sym.ExpS? && s == 23
            case 25 => sym.StartS? && s == 0
            case 26 => sym.TokS? && Symbol(sym.tok) == 0 && s == 25
            case _ => if 8 <= q <= 14 then sym.TokS? && Symbol(sym.tok) == q - 5 && AfterOperandState(s)
                      else sym.ExpS? && s == q - 8
  {
    if sym.TokS? {
      var t := Symbol(sym.tok);
      if Expecting(s) { ExpectingAction(s, t); }
      else if AfterOperandState(s) { AfterOperandAction(OperandState(s), t); }
      else { OtherAction(s, t); }
    }
  }

  predicate AfterOperandState(q: int) { 5 <= q <= 7 || 16 <= q <= 22 || q == 24 }

  /** The state below an operand. */
  function OperandState(q: int): (s: int)
    requires AfterOperandState(q)
    ensures Expecting(s) && AfterOperand(s) == q
  {
    match q
    case 5 => 0
    case 6 => 1
    case 7 => 4
    case 24 => 23
    case _ => q - 8
  }

  lemma {:induction false} StatesInRange(states: seq<int>, syms: seq<Sym>, k: nat)
    requires StackOk(states, syms) && k < |states|
    ensures 0 <= states[k] <= 26 && (k == 0 <==> states[k] == 0)
  {
    if k > 0 {
      StatesInRange(states, syms, k - 1);
      assert Link(states[k - 1], syms[k], states[k]);
      LinkShape(states[k - 1], syms[k], states[k]);
    }
  }

  /** `LinkShape` at stack position `k`. */
  lemma ShapeAt(states: seq<int>, syms: seq<Sym>, k: nat)
    requires StackOk(states, syms) && 0 < k < |states|
    ensures |states| == |syms| && 0 <= states[k - 1] <= 26 && 0 < states[k] <= 26
    ensures Link(states[k - 1], syms[k], states[k]) && OperandFits(syms[k - 1], syms[k])
  {
    StatesInRange(states, syms, k - 1);
    StatesInRange(states, syms, k);
  }

  /** What stands at position `k` of the stack when its state is one behind an operand. */
  lemma OperandAt(states: seq<int>, syms: seq<Sym>, k: nat)
    requires StackOk(states, syms) && k < |states| && AfterOperandState(states[k])
    ensures 0 < k < |syms| && syms[k].ExpS? && WellFormed(syms[k].cst) && Expecting(states[k - 1])
    ensures states[k - 1] == OperandState(states[k]) && Level(syms[k].cst) >= MinLevel(states[k - 1])
  {
    hide ActionOf, YyTranslate, TokenOk, WellFormed, Level, StackOk, OperandFits;
    StatesInRange(states, syms, k);
    ShapeAt(states, syms, k);
    LinkShape(states[k - 1], syms[k], states[k]);
  }

  predicate TokenState(q: int) { 1 <= q <= 4 || 8 <= q <= 15 || q == 23 }

  /** The token that leads to a state. */
  function TokenOf(q: int): int {
    match q
    case 1 => 10
    case 2 => 11
    case 3 => 13
    case 4 => 14
    case 15 => 15
    case 23 => 12
    case _ => q - 5
  }

  /** What stands there when its state is one behind a token. */
  lemma TokenAt(states: seq<int>, syms: seq<Sym>, k: nat)
    requires StackOk(states, syms) && k < |states| && TokenState(states[k])
    ensures 0 < k < |syms| && syms[k].TokS? && TokenOk(syms[k].tok) && Symbol(syms[k].tok) == TokenOf(states[k])
    ensures states[k] <= 4 ==> Expecting(states[k - 1])
    ensures states[k] == 15 ==> states[k - 1] == 7
    ensures states[k] == 23 ==> states[k - 1] == 16
    ensures 8 <= states[k] <= 14 ==> AfterOperandState(states[k - 1])
    ensures ActionOf(states[k - 1], Symbol(syms[k].tok)) == Shift(states[k]) && OperandFits(syms[k - 1], syms[k])
  {
    hide ActionOf, YyTranslate, TokenOk, WellFormed, Level, StackOk, OperandFits;
    StatesInRange(states, syms, k);
    ShapeAt(states, syms, k);
    LinkShape(states[k - 1], syms[k], states[k]);
  }

  lemma InvStack(c: Config, syms: seq<Sym>, all: seq<Token>)
    requires Inv(c, syms, all)
    ensures StackOk(c.states, syms) && |c.states| == |syms| > 0
  {
    hide StackOk;
  }

  lemma {:induction false} ConsumedAppend(a: seq<Sym>, b: seq<Sym>)
    ensures Consumed(a + b) == Consumed(a) + Consumed(b)
  {
    hide YieldOf;
    if b == [] {
      assert a + b == a;
    } else {
      var init, last := b[..|b| - 1], b[|b| - 1];
      assert (a + b)[..|a + b| - 1] == a + init;
      assert (a + b)[|a + b| - 1] == last;
      ConsumedAppend(a, init);
    }
  }

  // ----- Termination measure -----

  function Weight(s: Sym): nat {
    match s
    case Bottom => 0
    case TokS(t) => if t.code == YYEOF then 0 else 3
    case ExpS(_) => 2
    case StartS(_) => 1
  }

  function TotalWeight(syms: seq<Sym>): nat {
    if syms == [] then 0 else TotalWeight(syms[..|syms| - 1]) + Weight(syms[|syms| - 1])
  }

  lemma {:induction false} TotalWeightAppend(a: seq<Sym>, b: seq<Sym>)
    ensures TotalWeight(a + b) == TotalWeight(a) + TotalWeight(b)
  {
    if b == [] {
      assert a + b == a;
    } else {
      assert (a + b)[..|a + b| - 1] == a + b[..|b| - 1];
      TotalWeightAppend(a, b[..|b| - 1]);
    }
  }

  /** Unread tokens, pending reductions and the end marker still to be shifted. */
  function Measure(c: Config, syms: seq<Sym>): nat {
    4 * |c.input| + TotalWeight(syms) + if |c.states| > 0 && c.states[|c.states| - 1] == 26 then 0 else 1
  }

  // ----- One step keeps the invariant -----

  ghost predicate Good(o: Outcome, prev: Config, prevSyms: seq<Sym>, syms: seq<Sym>, all: seq<Token>) {
    match o
    case Stuck => false
    case Running(c) => Inv(c, syms, all) && Measure(c, syms) < Measure(prev, prevSyms)
    case Done(r) => (r.code == 1 || r.code == 2 || r.code == 0) && (r.code == 0 ==> Derives(all, r.res))
  }

  /** `all` is a sentence of the grammar that denotes `res`. */
  ghost predicate Derives(all: seq<Token>, res: Option<Expr>) {
    exists c: Cst :: WellFormed(c) && Yield(c) + [EOF_TOKEN] == all && res == Some(Ast(c))
  }

  /** Pushing a linked symbol keeps the stack part of the invariant. */
  lemma StackPush(states: seq<int>, vals: seq<Value>, syms: seq<Sym>, q: int, sym: Sym)
    requires StackOk(states, syms) && ValuesOk(vals, syms)
    requires Link(states[|states| - 1], sym, q) && OperandFits(syms[|syms| - 1], sym)
    ensures StackOk(states + [q], syms + [sym]) && ValuesOk(vals + [ValueOf(sym)], syms + [sym])
  {
    hide Link, OperandFits, ValueOf;
  }

  lemma StackPop(states: seq<int>, vals: seq<Value>, syms: seq<Sym>, base: nat)
    requires StackOk(states, syms) && ValuesOk(vals, syms)
    requires 0 < base <= |states|
    ensures StackOk(states[..base], syms[..base]) && ValuesOk(vals[..base], syms[..base])
  {
    hide Link, OperandFits, ValueOf;
  }

  lemma PushAccounts(syms: seq<Sym>, sym: Sym)
    ensures Consumed(syms + [sym]) == Consumed(syms) + YieldOf(sym)
    ensures TotalWeight(syms + [sym]) == TotalWeight(syms) + Weight(sym)
  {
    assert (syms + [sym])[..|syms|] == syms;
  }

  lemma SplitAccounts(syms: seq<Sym>, base: nat)
    requires base <= |syms|
    ensures Consumed(syms) == Consumed(syms[..base]) + Consumed(syms[base..])
    ensures TotalWeight(syms) == TotalWeight(syms[..base]) + TotalWeight(syms[base..])
  {
    hide Consumed, TotalWeight;
    assert syms == syms[..base] + syms[base..];
    ConsumedAppend(syms[..base], syms[base..]);
    TotalWeightAppend(syms[..base], syms[base..]);
  }

  /** What the next token is, and that it cannot extend the expression before it. */
  lemma InvLookahead(c: Config, syms: seq<Sym>, all: seq<Token>)
    requires Inv(c, syms, all)
    ensures c.input != [] && TokenOk(c.input[0]) && IsSymbol(Symbol(c.input[0]))
    ensures Symbol(c.input[0]) == 0 <==> c.input[0].code == YYEOF
    ensures syms[|syms| - 1].ExpS? ==> Closed(syms[|syms| - 1].cst, Symbol(c.input[0]))
  {
    hide StackOk, ValuesOk, Consumed, Closed;
  }

  lemma ClosedFits(c: Cst, t: int)
    requires Closed(c, t) && TokenLevel(t) >= 0
    ensures Level(c) >= TokenLevel(t) && Level(c) >= 1
  {
  }

  lemma OperandFitsShift(c: Config, syms: seq<Sym>, all: seq<Token>, q: int)
    requires Inv(c, syms, all)
    requires ActionOf(c.states[|c.states| - 1], Symbol(c.input[0])) == Shift(q)
    ensures Link(c.states[|c.states| - 1], TokS(c.input[0]), q)
    ensures OperandFits(syms[|syms| - 1], TokS(c.input[0]))
    ensures 0 <= c.states[|c.states| - 1] <= 26
    ensures if c.input[0].code == YYEOF then c.states[|c.states| - 1] == 25 && q == 26
            else q != 26 && c.states[|c.states| - 1] != 26
  {
    InvStack(c, syms, all);
    InvLookahead(c, syms, all);
    hide Inv, ActionOf, YyTranslate, StackOk, TokenOk, WellFormed, Level, Closed;
    var s, tok := c.states[|c.states| - 1], c.input[0];
    StatesInRange(c.states, syms, |syms| - 1);
    LinkShape(s, TokS(tok), q);
    if TokenLevel(Symbol(tok)) >= 0 {
      OperandAt(c.states, syms, |syms| - 1);
      ClosedFits(syms[|syms| - 1].cst, Symbol(tok));
    }
    if s == 26 {
      OtherAction(s, Symbol(tok));
    }
  }

  lemma StepOfShift(c: Config, q: int)
    requires c.states != [] && c.input != []
    requires ActionOf(c.states[|c.states| - 1], Symbol(c.input[0])) == Shift(q)
    ensures Step(c) == Push(Config(c.states, c.vals + [c.input[0].val],
                                   if c.input[0].code == YYEOF then c.input else c.input[1..], c.res), q)
  {
    hide ActionOf, YyTranslate;
  }

  lemma TokensAdvance(ts: seq<Token>)
    requires TokensOk(ts) && ts[0].code != YYEOF
    ensures ts[1..] != [] && TokensOk(ts[1..]) && ts == [ts[0]] + ts[1..]
  {
    hide TokenOk;
  }

  lemma ShiftKeeps(c: Config, syms: seq<Sym>, all: seq<Token>, q: int)
    requires Inv(c, syms, all)
    requires ActionOf(c.states[|c.states| - 1], Symbol(c.input[0])) == Shift(q)
    ensures Good(Step(c), c, syms, syms + [TokS(c.input[0])], all)
  {
    hide ActionOf, YyTranslate, Link, OperandFits, Closed, StackOk, ValuesOk, TokensOk, TokenOk, Consumed, TotalWeight,
      Step, Derives;
    var tok := c.input[0];
    var syms' := syms + [TokS(tok)];
    OperandFitsShift(c, syms, all, q);
    StackPush(c.states, c.vals, syms, q, TokS(tok));
    PushAccounts(syms, TokS(tok));
    StepOfShift(c, q);
    if tok.code != YYEOF {
      TokensAdvance(c.input);
      assert Consumed(syms) + [tok] + c.input[1..] == Consumed(syms) + ([tok] + c.input[1..]);
    } else {
      assert Consumed(syms) + [] == Consumed(syms);
    }
  }

  lemma StepOfReduce(c: Config, rule: int, base: nat, v: Value)
    requires c.states != [] && c.input != [] && |c.vals| == |c.states|
    requires ActionOf(c.states[|c.states| - 1], Symbol(c.input[0])) == Reduce(rule)
    requires base == |c.states| - YyR2(rule) && base > 0
    requires RuleValue(rule, c.vals[base..]) == Some(v) && v.ExpV?
    ensures Step(c) == Push(Config(c.states[..base], c.vals[..base] + [v], c.input,
                                   if rule == 1 then Some(v.exp) else c.res),
                            GotoOf(rule, c.states[base - 1]))
  {
    hide ActionOf, YyTranslate, RuleValue, GotoOf, YyR2;
  }

  /** `sym` may replace the right-hand side of `rule` above stack position `base`. */
  ghost predicate Replaces(c: Config, syms: seq<Sym>, rule: int, base: nat, sym: Sym) {
    && |syms| == |c.states| == |c.vals| && c.input != []
    && 1 <= rule <= 12 && base == |c.states| - YyR2(rule) && base > 0
    && (if rule == 1 then sym.StartS? && base == 1 else sym.ExpS? && Closed(sym.cst, Symbol(c.input[0])))
    && Link(c.states[base - 1], sym, GotoOf(rule, c.states[base - 1]))
    && RuleValue(rule, c.vals[base..]) == Some(ValueOf(sym))
    && YieldOf(sym) == Consumed(syms[base..])
    && Weight(sym) < TotalWeight(syms[base..])
    && c.states[|c.states| - 1] != 26
  }

  lemma ReduceKeeps(c: Config, syms: seq<Sym>, all: seq<Token>, rule: int, base: nat, sym: Sym)
    requires Inv(c, syms, all)
    requires ActionOf(c.states[|c.states| - 1], Symbol(c.input[0])) == Reduce(rule)
    requires Replaces(c, syms, rule, base, sym)
    ensures Good(Step(c), c, syms, syms[..base] + [sym], all)
  {
    hide ActionOf, YyTranslate, Link, Closed, StackOk, ValuesOk, TokensOk, TokenOk, Consumed, TotalWeight, Step,
      Derives, GotoOf, RuleValue, YyR2;
    var q := GotoOf(rule, c.states[base - 1]);
    StepOfReduce(c, rule, base, ValueOf(sym));
    StackPop(c.states, c.vals, syms, base);
    StackPush(c.states[..base], c.vals[..base], syms[..base], q, sym);
    SplitAccounts(syms, base);
    PushAccounts(syms[..base], sym);
  }

  lemma Accounts1(a: Sym)
    ensures Consumed([a]) == YieldOf(a) && TotalWeight([a]) == Weight(a)
  {
    PushAccounts([], a);
    assert [] + [a] == [a];
  }

  lemma Accounts2(a: Sym, b: Sym)
    ensures Consumed([a, b]) == YieldOf(a) + YieldOf(b)
    ensures TotalWeight([a, b]) == Weight(a) + Weight(b)
  {
    Accounts1(a);
    PushAccounts([a], b);
    assert [a] + [b] == [a, b];
  }

  lemma Accounts3(a: Sym, b: Sym, c: Sym)
    ensures Consumed([a, b, c]) == YieldOf(a) + YieldOf(b) + YieldOf(c)
    ensures TotalWeight([a, b, c]) == Weight(a) + Weight(b) + Weight(c)
  {
    Accounts2(a, b);
    PushAccounts([a, b], c);
    assert [a, b] + [c] == [a, b, c];
  }

  lemma Accounts5(a: Sym, b: Sym, c: Sym, d: Sym, e: Sym)
    ensures Consumed([a, b, c, d, e]) == YieldOf(a) + YieldOf(b) + YieldOf(c) + YieldOf(d) + YieldOf(e)
    ensures TotalWeight([a, b, c, d, e]) == Weight(a) + Weight(b) + Weight(c) + Weight(d) + Weight(e)
  {
    Accounts3(a, b, c);
    PushAccounts([a, b, c], d);
    assert [a, b, c] + [d] == [a, b, c, d];
    PushAccounts([a, b, c, d], e);
    assert [a, b, c, d] + [e] == [a, b, c, d, e];
  }

  /** A token of a symbol without alternatives is determined by its symbol. */
  lemma TokenOfSymbol(t: Token)
    requires TokenOk(t)
    ensures Symbol(t) == 3 ==> t == Token(Code('?'), Unset)
    ensures Symbol(t) == 4 ==> t == OpToken(LOr)
    ensures Symbol(t) == 5 ==> t == OpToken(LAnd)
    ensures 6 <= Symbol(t) <= 9 ==> t.val.OpV? && t == OpToken(t.val.op) && OpLevel(t.val.op) == Symbol(t) - 3
    ensures Symbol(t) == 10 ==> t == Token(Code('!'), Unset)
    ensures Symbol(t) == 11 ==> t.val.NumV? && t == Token(NUMBER, t.val)
    ensures Symbol(t) == 12 ==> t == Token(Code(':'), Unset)
    ensures Symbol(t) == 13 ==> t == Token(Code('n'), Unset)
    ensures Symbol(t) == 14 ==> t == Token(Code('('), Unset)
    ensures Symbol(t) == 15 ==> t == Token(Code(')'), Unset)
    ensures Symbol(t) == 0 <==> t.code == YYEOF
  {
  }

  /** Rules 10 and 11. */
  lemma ReduceLeaf(c: Config, syms: seq<Sym>, all: seq<Token>) returns (sym: Sym)
    requires Inv(c, syms, all)
    requires c.states[|c.states| - 1] == 2 || c.states[|c.states| - 1] == 3
    ensures |syms| > 1 && Replaces(c, syms, if c.states[|c.states| - 1] == 2 then 11 else 10, |syms| - 1, sym)
  {
    InvStack(c, syms, all);
    hide ActionOf, YyTranslate, StackOk, Consumed, TotalWeight, TokenOk, Derives, GotoOf;
    var n := |syms| - 1;
    var q := c.states[n];
    TokenAt(c.states, syms, n);
    TokenOfSymbol(syms[n].tok);
    assert syms[n..] == [syms[n]];
    assert c.vals[n..] == [ValueOf(syms[n])];
    Accounts1(syms[n]);
    sym := ExpS(if q == 2 then CNum(syms[n].tok.val.num) else CVar);
    GotoAction(if q == 2 then 11 else 10, c.states[n - 1]);
  }

  lemma LookaheadSymbol(c: Config, syms: seq<Sym>, all: seq<Token>)
    requires Inv(c, syms, all)
    ensures IsSymbol(Symbol(c.input[0]))
  {
  }

  /** Only the initial state stands alone on the stack. */
  lemma StackNonTrivial(c: Config, syms: seq<Sym>, all: seq<Token>)
    requires Inv(c, syms, all) && c.states[|c.states| - 1] != 0
    ensures |syms| > 1
  {
  }

  lemma ParenShape(c: Config, syms: seq<Sym>, all: seq<Token>)
    requires Inv(c, syms, all) && c.states[|c.states| - 1] == 15
    ensures var n := |syms| - 1;
            && 0 < n - 2 && syms[n].TokS? && syms[n - 1].ExpS? && syms[n - 2].TokS?
            && TokenOk(syms[n].tok) && Symbol(syms[n].tok) == 15
            && TokenOk(syms[n - 2].tok) && Symbol(syms[n - 2].tok) == 14
            && WellFormed(syms[n - 1].cst) && Expecting(c.states[n - 3])
  {
    InvStack(c, syms, all);
    hide Inv, ActionOf, YyTranslate, StackOk, TokenOk, WellFormed, Level, OperandFits;
    var n := |syms| - 1;
    TokenAt(c.states, syms, n);
    OperandAt(c.states, syms, n - 1);
    TokenAt(c.states, syms, n - 2);
  }

  lemma ParenValue(open: Sym, e: Sym, close: Sym) returns (sym: Sym)
    requires e.ExpS? && WellFormed(e.cst) && open.TokS? && TokenOk(open.tok) && Symbol(open.tok) == 14
    requires close.TokS? && TokenOk(close.tok) && Symbol(close.tok) == 15
    ensures sym == ExpS(CParen(e.cst)) && WellFormed(sym.cst) && Level(sym.cst) == 7
    ensures RuleValue(12, [ValueOf(open), ValueOf(e), ValueOf(close)]) == Some(ValueOf(sym))
    ensures YieldOf(sym) == YieldOf(open) + YieldOf(e) + YieldOf(close)
    ensures Weight(sym) < Weight(open) + Weight(e) + Weight(close)
  {
    hide YyTranslate, TokenOk;
    TokenOfSymbol(open.tok);
    TokenOfSymbol(close.tok);
    sym := ExpS(CParen(e.cst));
  }

  /** Rule 12. */
  lemma ReduceParen(c: Config, syms: seq<Sym>, all: seq<Token>) returns (sym: Sym)
    requires Inv(c, syms, all) && c.states[|c.states| - 1] == 15
    ensures |syms| > 3 && Replaces(c, syms, 12, |syms| - 3, sym)
  {
    hide ActionOf, YyTranslate, StackOk, Consumed, TotalWeight, TokenOk, Derives, GotoOf, RuleValue, YieldOf,
      WellFormed;
    var n := |syms| - 1;
    ParenShape(c, syms, all);
    assert syms[n - 2..] == [syms[n - 2], syms[n - 1], syms[n]];
    assert c.vals[n - 2..] == [ValueOf(syms[n - 2]), ValueOf(syms[n - 1]), ValueOf(syms[n])];
    Accounts3(syms[n - 2], syms[n - 1], syms[n]);
    sym := ParenValue(syms[n - 2], syms[n - 1], syms[n]);
    GotoAction(12, c.states[n - 3]);
  }

  lemma NotShape(c: Config, syms: seq<Sym>, all: seq<Token>)
    requires Inv(c, syms, all) && c.states[|c.states| - 1] == 6
    ensures var n := |syms| - 1;
            && 0 < n - 1 && syms[n].ExpS? && syms[n - 1].TokS?
            && TokenOk(syms[n - 1].tok) && Symbol(syms[n - 1].tok) == 10
            && WellFormed(syms[n].cst) && Level(syms[n].cst) == 7 && Expecting(c.states[n - 2])
  {
    InvStack(c, syms, all);
    hide Inv, ActionOf, YyTranslate, StackOk, TokenOk, WellFormed, Level, OperandFits;
    var n := |syms| - 1;
    OperandAt(c.states, syms, n);
    LevelAtMost(syms[n].cst);
    TokenAt(c.states, syms, n - 1);
  }

  lemma NotValue(op: Sym, e: Sym) returns (sym: Sym)
    requires e.ExpS? && WellFormed(e.cst) && Level(e.cst) == 7
    requires op.TokS? && TokenOk(op.tok) && Symbol(op.tok) == 10
    ensures sym == ExpS(CNot(e.cst)) && WellFormed(sym.cst) && Level(sym.cst) == 7
    ensures RuleValue(9, [ValueOf(op), ValueOf(e)]) == Some(ValueOf(sym))
    ensures YieldOf(sym) == YieldOf(op) + YieldOf(e)
    ensures Weight(sym) < Weight(op) + Weight(e)
  {
    hide YyTranslate, TokenOk;
    TokenOfSymbol(op.tok);
    sym := ExpS(CNot(e.cst));
  }

  /** Rule 9. */
  lemma ReduceNot(c: Config, syms: seq<Sym>, all: seq<Token>) returns (sym: Sym)
    requires Inv(c, syms, all) && c.states[|c.states| - 1] == 6
    ensures |syms| > 2 && Replaces(c, syms, 9, |syms| - 2, sym)
  {
    hide ActionOf, YyTranslate, StackOk, Consumed, TotalWeight, TokenOk, Derives, GotoOf, RuleValue, YieldOf,
      WellFormed;
    var n := |syms| - 1;
    NotShape(c, syms, all);
    assert syms[n - 1..] == [syms[n - 1], syms[n]];
    assert c.vals[n - 1..] == [ValueOf(syms[n - 1]), ValueOf(syms[n])];
    Accounts2(syms[n - 1], syms[n]);
    sym := NotValue(syms[n - 1], syms[n]);
    GotoAction(9, c.states[n - 2]);
  }

  /** The three top symbols when a binary operator's right operand is complete. */
  lemma BinaryShape(c: Config, syms: seq<Sym>, all: seq<Token>, q: int)
    requires Inv(c, syms, all) && c.states[|c.states| - 1] == q && 17 <= q <= 22
    ensures var n := |syms| - 1;
            && 0 < n - 2 && syms[n].ExpS? && syms[n - 1].TokS? && syms[n - 2].ExpS?
            && TokenOk(syms[n - 1].tok) && Symbol(syms[n - 1].tok) == q - 13
            && WellFormed(syms[n].cst) && Level(syms[n].cst) >= q - 15
            && WellFormed(syms[n - 2].cst) && Level(syms[n - 2].cst) >= q - 16
            && c.states[n - 1] == q - 8 && Expecting(c.states[n - 3]) && q - 16 >= MinLevel(c.states[n - 3])
  {
    InvStack(c, syms, all);
    hide Inv, ActionOf, YyTranslate, StackOk, TokenOk, WellFormed, Level;
    var n := |syms| - 1;
    OperandAt(c.states, syms, n);
    TokenAt(c.states, syms, n - 1);
    OperandAt(c.states, syms, n - 2);
    AfterOperandAction(c.states[n - 3], Symbol(syms[n - 1].tok));
  }

  /** The value and the sentence of a binary expression. */
  lemma BinaryValue(l: Sym, op: Sym, r: Sym, q: int) returns (sym: Sym)
    requires l.ExpS? && r.ExpS? && op.TokS? && TokenOk(op.tok) && Symbol(op.tok) == q - 13 && 17 <= q <= 22
    requires WellFormed(l.cst) && WellFormed(r.cst) && Level(l.cst) >= q - 16 && Level(r.cst) >= q - 15
    ensures sym.ExpS? && sym.cst.CBin? && WellFormed(sym.cst) && Level(sym.cst) == q - 16
    ensures RuleValue(q - 14, [ValueOf(l), ValueOf(op), ValueOf(r)]) == Some(ValueOf(sym))
    ensures YieldOf(sym) == YieldOf(l) + YieldOf(op) + YieldOf(r)
    ensures Weight(sym) < Weight(l) + Weight(op) + Weight(r)
  {
    hide ActionOf, YyTranslate, TokenOk;
    TokenOfSymbol(op.tok);
    var o := if q == 17 then LOr else if q == 18 then LAnd else op.tok.val.op;
    sym := ExpS(CBin(o, l.cst, r.cst));
  }

  /** Rules 3 to 8. */
  lemma ReduceBinary(c: Config, syms: seq<Sym>, all: seq<Token>, q: int) returns (sym: Sym)
    requires Inv(c, syms, all) && c.states[|c.states| - 1] == q && 17 <= q <= 22
    requires ActionOf(q, Symbol(c.input[0])) == Reduce(q - 14)
    ensures |syms| > 3 && Replaces(c, syms, q - 14, |syms| - 3, sym)
  {
    hide ActionOf, YyTranslate, StackOk, Consumed, TotalWeight, TokenOk, Derives, GotoOf, RuleValue, YieldOf,
      WellFormed;
    var n := |syms| - 1;
    BinaryShape(c, syms, all, q);
    LookaheadSymbol(c, syms, all);
    AfterOperandAction(c.states[n - 1], Symbol(c.input[0]));
    assert syms[n - 2..] == [syms[n - 2], syms[n - 1], syms[n]];
    assert c.vals[n - 2..] == [ValueOf(syms[n - 2]), ValueOf(syms[n - 1]), ValueOf(syms[n])];
    Accounts3(syms[n - 2], syms[n - 1], syms[n]);
    sym := BinaryValue(syms[n - 2], syms[n - 1], syms[n], q);
    GotoAction(q - 14, c.states[n - 3]);
  }

  lemma CondUpperShape(c: Config, syms: seq<Sym>, all: seq<Token>)
    requires Inv(c, syms, all) && c.states[|c.states| - 1] == 24
    ensures var n := |syms| - 1;
            && 0 < n - 2 && syms[n].ExpS? && syms[n - 1].TokS? && syms[n - 2].ExpS?
            && TokenOk(syms[n - 1].tok) && Symbol(syms[n - 1].tok) == 12
            && WellFormed(syms[n].cst) && WellFormed(syms[n - 2].cst)
            && c.states[n - 1] == 23 && c.states[n - 3] == 8
  {
    InvStack(c, syms, all);
    hide Inv, ActionOf, YyTranslate, StackOk, TokenOk, WellFormed, Level, OperandFits;
    var n := |syms| - 1;
    OperandAt(c.states, syms, n);
    TokenAt(c.states, syms, n - 1);
    OperandAt(c.states, syms, n - 2);
  }

  lemma CondLowerShape(c: Config, syms: seq<Sym>, all: seq<Token>, k: nat)
    requires Inv(c, syms, all) && k < |syms| && c.states[k] == 8
    ensures && 0 < k - 1 && syms[k].TokS? && syms[k - 1].ExpS?
            && TokenOk(syms[k].tok) && Symbol(syms[k].tok) == 3
            && WellFormed(syms[k - 1].cst) && Level(syms[k - 1].cst) >= 1
            && Expecting(c.states[k - 2]) && MinLevel(c.states[k - 2]) == 0
  {
    InvStack(c, syms, all);
    hide Inv, ActionOf, YyTranslate, StackOk, TokenOk, WellFormed, Level;
    TokenAt(c.states, syms, k);
    OperandAt(c.states, syms, k - 1);
    AfterOperandAction(c.states[k - 2], 3);
  }

  lemma CondValue(b: Sym, question: Sym, y: Sym, colon: Sym, z: Sym) returns (sym: Sym)
    requires b.ExpS? && WellFormed(b.cst) && Level(b.cst) >= 1
    requires y.ExpS? && WellFormed(y.cst) && z.ExpS? && WellFormed(z.cst)
    requires question.TokS? && TokenOk(question.tok) && Symbol(question.tok) == 3
    requires colon.TokS? && TokenOk(colon.tok) && Symbol(colon.tok) == 12
    ensures sym == ExpS(CCond(b.cst, y.cst, z.cst)) && WellFormed(sym.cst) && Level(sym.cst) == 0
    ensures RuleValue(2, [ValueOf(b), ValueOf(question), ValueOf(y), ValueOf(colon), ValueOf(z)]) == Some(ValueOf(sym))
    ensures YieldOf(sym) == YieldOf(b) + YieldOf(question) + YieldOf(y) + YieldOf(colon) + YieldOf(z)
    ensures Weight(sym) < Weight(b) + Weight(question) + Weight(y) + Weight(colon) + Weight(z)
  {
    hide YyTranslate, TokenOk;
    TokenOfSymbol(question.tok);
    TokenOfSymbol(colon.tok);
    sym := ExpS(CCond(b.cst, y.cst, z.cst));
  }

  /** Rule 2. */
  lemma ReduceCond(c: Config, syms: seq<Sym>, all: seq<Token>) returns (sym: Sym)
    requires Inv(c, syms, all) && c.states[|c.states| - 1] == 24
    requires ActionOf(24, Symbol(c.input[0])) == Reduce(2)
    ensures |syms| > 5 && Replaces(c, syms, 2, |syms| - 5, sym)
  {
    hide ActionOf, YyTranslate, StackOk, Consumed, TotalWeight, TokenOk, Derives, GotoOf, RuleValue, YieldOf,
      WellFormed;
    var n := |syms| - 1;
    CondUpperShape(c, syms, all);
    CondLowerShape(c, syms, all, n - 3);
    LookaheadSymbol(c, syms, all);
    AfterOperandAction(23, Symbol(c.input[0]));
    assert syms[n - 4..] == [syms[n - 4], syms[n - 3], syms[n - 2], syms[n - 1], syms[n]];
    assert c.vals[n - 4..] == [ValueOf(syms[n - 4]), ValueOf(syms[n - 3]), ValueOf(syms[n - 2]),
                               ValueOf(syms[n - 1]), ValueOf(syms[n])];
    Accounts5(syms[n - 4], syms[n - 3], syms[n - 2], syms[n - 1], syms[n]);
    sym := CondValue(syms[n - 4], syms[n - 3], syms[n - 2], syms[n - 1], syms[n]);
    GotoAction(2, c.states[n - 5]);
  }

  /** Rule 1. */
  lemma ReduceStart(c: Config, syms: seq<Sym>, all: seq<Token>) returns (sym: Sym)
    requires Inv(c, syms, all) && c.states[|c.states| - 1] == 5
    ensures |syms| > 1 && Replaces(c, syms, 1, |syms| - 1, sym)
  {
    hide ActionOf, YyTranslate, StackOk, Consumed, TotalWeight, TokenOk, Derives, GotoOf;
    var n := |syms| - 1;
    StackNonTrivial(c, syms, all);
    ShapeAt(c.states, syms, n);
    LinkShape(c.states[n - 1], syms[n], 5);
    StatesInRange(c.states, syms, n - 1);
    assert syms[n..] == [syms[n]];
    assert c.vals[n..] == [ValueOf(syms[n])];
    Accounts1(syms[n]);
    sym := StartS(syms[n].cst);
    GotoAction(1, 0);
  }

  /** The rule that a state reduces by. */
  lemma ReduceRule(q: int, t: int, rule: int)
    requires 0 <= q <= 26 && IsSymbol(t) && ActionOf(q, t) == Reduce(rule)
    ensures rule == if q == 2 then 11 else if q == 3 then 10 else if q == 15 then 12 else if q == 5 then 1
                    else if q == 6 then 9 else if q == 24 then 2 else q - 14
    ensures q == 2 || q == 3 || q == 15 || q == 5 || q == 6 || q == 24 || 17 <= q <= 22
  {
    hide ActionOf;
    if Expecting(q) { ExpectingAction(q, t); }
    else if AfterOperandState(q) { AfterOperandAction(OperandState(q), t); }
    else { OtherAction(q, t); }
  }

  /** The stack of the accepting state. */
  lemma AcceptShape(states: seq<int>, syms: seq<Sym>)
    requires states != [] && StackOk(states, syms) && states[|states| - 1] == 26
    ensures |syms| == 3 && syms[0] == Bottom && syms[1].StartS? && WellFormed(syms[1].cst)
    ensures syms[2].TokS? && TokenOk(syms[2].tok) && Symbol(syms[2].tok) == 0
  {
    hide ActionOf, YyTranslate, TokenOk, WellFormed, Level, StackOk, OperandFits;
    var n := |states| - 1;
    StatesInRange(states, syms, n);
    ShapeAt(states, syms, n);
    LinkShape(states[n - 1], syms[n], 26);
    StatesInRange(states, syms, n - 1);
    ShapeAt(states, syms, n - 1);
    LinkShape(states[n - 2], syms[n - 1], 25);
    StatesInRange(states, syms, n - 2);
    BottomAt(states, syms);
  }

  lemma BottomAt(states: seq<int>, syms: seq<Sym>)
    requires StackOk(states, syms)
    ensures |states| == |syms| > 0 && syms[0] == Bottom
  {
    hide Link, OperandFits;
  }

  /** Accepting means that the whole input was derived from `start`. */
  lemma AcceptDerives(c: Config, syms: seq<Sym>, all: seq<Token>)
    requires Inv(c, syms, all)
    requires ActionOf(c.states[|c.states| - 1], Symbol(c.input[0])) == Accept
    ensures Derives(all, c.res)
  {
    InvStack(c, syms, all);
    LookaheadSymbol(c, syms, all);
    hide ActionOf, YyTranslate, StackOk, TokenOk, GotoOf, WellFormed;
    StatesInRange(c.states, syms, |syms| - 1);
    OnlyAccepts(c.states[|syms| - 1], Symbol(c.input[0]));
    AcceptShape(c.states, syms);
    assert syms == [Bottom, syms[1], syms[2]];
    Accounts3(Bottom, syms[1], syms[2]);
    assert TokenOk(c.input[0]) && TokenOk(syms[2].tok);
    TokenOfSymbol(c.input[0]);
    TokenOfSymbol(syms[2].tok);
    assert c.input == [EOF_TOKEN];
    assert Yield(syms[1].cst) + [EOF_TOKEN] == all;
  }

  lemma OnlyAccepts(q: int, t: int)
    requires 0 <= q <= 26 && IsSymbol(t) && ActionOf(q, t) == Accept
    ensures q == 26 && t == 0
  {
    hide ActionOf;
    if Expecting(q) { ExpectingAction(q, t); }
    else if AfterOperandState(q) { AfterOperandAction(OperandState(q), t); }
    else { OtherAction(q, t); }
  }

  lemma ReduceStep(c: Config, syms: seq<Sym>, all: seq<Token>, rule: int) returns (syms': seq<Sym>)
    requires Inv(c, syms, all)
    requires ActionOf(c.states[|c.states| - 1], Symbol(c.input[0])) == Reduce(rule)
    ensures Good(Step(c), c, syms, syms', all)
  {
    hide ActionOf, YyTranslate, StackOk, ValuesOk, TokensOk, Consumed, Step, Good, Replaces;
    var q := c.states[|c.states| - 1];
    StatesInRange(c.states, syms, |syms| - 1);
    LookaheadSymbol(c, syms, all);
    ReduceRule(q, Symbol(c.input[0]), rule);
    var base, sym;
    if q == 2 || q == 3 { base := |syms| - 1; sym := ReduceLeaf(c, syms, all); }
    else if q == 15 { base := |syms| - 3; sym := ReduceParen(c, syms, all); }
    else if q == 5 { base := |syms| - 1; sym := ReduceStart(c, syms, all); }
    else if q == 6 { base := |syms| - 2; sym := ReduceNot(c, syms, all); }
    else if q == 24 { base := |syms| - 5; sym := ReduceCond(c, syms, all); }
    else { base := |syms| - 3; sym := ReduceBinary(c, syms, all, q); }
    ReduceKeeps(c, syms, all, rule, base, sym);
    syms' := syms[..base] + [sym];
  }

  /** Every turn of the driver keeps the invariant and makes progress, or stops properly. */
  lemma StepKeeps(c: Config, syms: seq<Sym>, all: seq<Token>) returns (syms': seq<Sym>)
    requires Inv(c, syms, all)
    ensures Good(Step(c), c, syms, syms', all)
  {
    hide ActionOf, YyTranslate, StackOk, ValuesOk, TokensOk, Consumed, Derives;
    match ActionOf(c.states[|c.states| - 1], Symbol(c.input[0]))
    case Accept => AcceptDerives(c, syms, all); syms' := syms;
    case Error => syms' := syms;
    case Reduce(rule) => syms' := ReduceStep(c, syms, all, rule);
    case Shift(q) => ShiftKeeps(c, syms, all, q); syms' := syms + [TokS(c.input[0])];
  }

  lemma InitInv(tokens: seq<Token>)
    requires TokensOk(tokens)
    ensures Inv(Init(tokens).c, [Bottom], tokens)
  {
    Accounts1(Bottom);
    assert [] + tokens == tokens;
  }

  lemma {:induction false} RunStops(c: Config, syms: seq<Sym>, all: seq<Token>) returns (r: ParseResult)
    requires Inv(c, syms, all)
    ensures HaltsWith(Running(c), r)
    ensures r.code == 0 || r.code == 1 || r.code == 2
    ensures r.code == 0 ==> Derives(all, r.res)
    decreases Measure(c, syms)
  {
    hide Step, Inv, Measure, Derives;
    var syms' := StepKeeps(c, syms, all);
    match Step(c) {
      case Running(c') => r := RunStops(c', syms', all);
      case Done(r') =>
        r := r';
        assert Iterate(Step(c), 0) == Done(r);
    }
    HaltsStep(c, r);
  }

  /** On every token stream the driver stops with 0, 1 or 2. */
  lemma ParserTerminates(tokens: seq<Token>) returns (r: ParseResult)
    requires TokensOk(tokens)
    ensures HaltsWith(Init(tokens), r) && 0 <= r.code <= 2
  {
    InitInv(tokens);
    r := RunStops(Init(tokens).c, [Bottom], tokens);
  }

  /** Whatever the driver accepts is a sentence of the precedence grammar, and the tree it
      returns is the one that the sentence denotes. */
  lemma ParserSound(tokens: seq<Token>, r: ParseResult)
    requires TokensOk(tokens) && HaltsWith(Init(tokens), r)
    ensures r.code == 0 ==> Derives(tokens, r.res)
  {
    InitInv(tokens);
    var r' := RunStops(Init(tokens).c, [Bottom], tokens);
    HaltsOnce(Init(tokens), r, r');
  }
}
