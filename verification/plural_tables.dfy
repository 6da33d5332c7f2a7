/** The LALR(1) tables of the plural-expression parser and what they encode. */
module PluralTables {

  const YYFINAL := 27
  const YYFLAG := -32768
  const YYNTBASE := 16
  const YYLAST := 53
  const YYTERROR := 1

  /** `YYTRANSLATE`: external token code to internal symbol number. */
  function YyTranslate(x: int): int {
    if x < 0 || x > 261 then 18 else
    match x
    case 0 => 0
    case 33 => 10
    case 38 => 5
    case 40 => 14
    case 41 => 15
    case 58 => 12
    case 63 => 3
    case 110 => 13
    case 124 => 4
    case 256 => 1
    case 257 => 6
    case 258 => 7
    case 259 => 8
    case 260 => 9
    case 261 => 11
    case _ => 2
  }

  /** Left-hand side of rule `n`. */
  function YyR1(n: int): int {
    if n == 0 then 0 else if n == 1 then 16 else 17
  }

  /** Number of right-hand-side symbols of rule `n`. */
  function YyR2(n: int): nat {
    match n
    case 0 => 0
    case 1 => 1
    case 2 => 5
    case 3 => 3 case 4 => 3 case 5 => 3 case 6 => 3 case 7 => 3 case 8 => 3
    case 9 => 2
    case 10 => 1
    case 11 => 1
    case _ => 3
  }

  function YyDefact(s: int): int {
    match s
    case 2 => 11
    case 3 => 10
    case 5 => 1
    case 6 => 9
    case 15 => 12
    case 17 => 3
    case 18 => 4
    case 19 => 5
    case 20 => 6
    case 21 => 7
    case 22 => 8
    case 24 => 2
    case _ => 0
  }

  function YyDefgoto(n: int): int { if n == 0 then 25 else 5 }

  function YyPgoto(n: int): int { if n == 0 then -32768 else -1 }

  function YyPact(s: int): int {
    match s
    case 0 => -9 case 1 => -9 case 2 => -32768 case 3 => -32768 case 4 => -9
    case 5 => 34 case 6 => -32768 case 7 => 11 case 8 => -9 case 9 => -9
    case 10 => -9 case 11 => -9 case 12 => -9 case 13 => -9 case 14 => -9
    case 15 => -32768 case 16 => 24 case 17 => 39 case 18 => 43 case 19 => 16
    case 20 => 26 case 21 => -3 case 22 => -32768 case 23 => -9 case 24 => 34
    case 25 => 21 case 26 => 53 case _ => -32768
  }

  function YyTable(i: int): int {
    match i
    case 0 => 6 case 1 => 1 case 2 => 2 case 3 => 7 case 4 => 3 case 5 => 4 case 6 => 14 case 7 => 16
    case 8 => 17 case 9 => 18 case 10 => 19 case 11 => 20 case 12 => 21 case 13 => 22 case 14 => 8 case 15 => 9
    case 16 => 10 case 17 => 11 case 18 => 12 case 19 => 13 case 20 => 14 case 21 => 26 case 22 => 24 case 23 => 12
    case 24 => 13 case 25 => 14 case 26 => 15 case 27 => 8 case 28 => 9 case 29 => 10 case 30 => 11 case 31 => 12
    case 32 => 13 case 33 => 14 case 34 => 13 case 35 => 14 case 36 => 23 case 37 => 8 case 38 => 9 case 39 => 10
    case 40 => 11 case 41 => 12 case 42 => 13 case 43 => 14 case 44 => 10 case 45 => 11 case 46 => 12 case 47 => 13
    case 48 => 14 case 49 => 11 case 50 => 12 case 51 => 13 case 52 => 14 case _ => 27
  }

  function YyCheck(i: int): int {
    match i
    case 0 => 1 case 1 => 10 case 2 => 11 case 3 => 4 case 4 => 13 case 5 => 14 case 6 => 9 case 7 => 8
    case 8 => 9 case 9 => 10 case 10 => 11 case 11 => 12 case 12 => 13 case 13 => 14 case 14 => 3 case 15 => 4
    case 16 => 5 case 17 => 6 case 18 => 7 case 19 => 8 case 20 => 9 case 21 => 0 case 22 => 23 case 23 => 7
    case 24 => 8 case 25 => 9 case 26 => 15 case 27 => 3 case 28 => 4 case 29 => 5 case 30 => 6 case 31 => 7
    case 32 => 8 case 33 => 9 case 34 => 8 case 35 => 9 case 36 => 12 case 37 => 3 case 38 => 4 case 39 => 5
    case 40 => 6 case 41 => 7 case 42 => 8 case 43 => 9 case 44 => 5 case 45 => 6 case 46 => 7 case 47 => 8
    case 48 => 9 case 49 => 6 case 50 => 7 case 51 => 8 case 52 => 9 case _ => 0
  }

  /** What the driver does in state `s` on internal token `t`. */
  datatype Action = Shift(state: int) | Reduce(rule: int) | Accept | Error

  function DefaultAction(s: int): Action {
    if YyDefact(s) == 0 then Error else Reduce(YyDefact(s))
  }

  function ActionOf(s: int, t: int): Action {
    if YyPact(s) == YYFLAG then DefaultAction(s)
    else
      var n := YyPact(s) + t;
      if n < 0 || n > YYLAST || YyCheck(n) != t then DefaultAction(s)
      else
        var a := YyTable(n);
        if a < 0 then (if a == YYFLAG then Error else Reduce(-a))
        else if a == 0 then Error
        else if a == YYFINAL then Accept
        else Shift(a)
  }

  /** The state entered after reducing by `rule` with `s` exposed. */
  function GotoOf(rule: int, s: int): int {
    var n := YyR1(rule);
    var q := YyPgoto(n - YYNTBASE) + s;
    if 0 <= q <= YYLAST && YyCheck(q) == s then YyTable(q) else YyDefgoto(n - YYNTBASE)
  }

  // ----- The automaton behind the tables -----

  /** States in which an operand comes next. */
  predicate Expecting(s: int) {
    s == 0 || s == 1 || s == 4 || 8 <= s <= 14 || s == 23
  }

  /** The weakest expression that state `s` takes as its operand. */
  function MinLevel(s: int): int
    requires Expecting(s)
  {
    if s == 1 then 7 else if 9 <= s <= 14 then s - 7 else 0
  }

  /** The state after an operand was pushed on `s`. */
  function AfterOperand(s: int): int
    requires Expecting(s)
  {
    match s
    case 0 => 5
    case 1 => 6
    case 4 => 7
    case 23 => 24
    case _ => s + 8
  }

  /** Precedence of an internal token when it follows an operand; -1 for no operator. */
  function TokenLevel(t: int): int {
    if 3 <= t <= 9 then t - 3 else -1
  }

  predicate IsSymbol(t: int) { 0 <= t <= 15 }

  lemma ExpectingAction(s: int, t: int)
    requires Expecting(s) && IsSymbol(t)
    ensures ActionOf(s, t) ==
            if t == 10 then Shift(1) else if t == 11 then Shift(2)
            else if t == 13 then Shift(3) else if t == 14 then Shift(4) else Error
  {
  }

  /** The action in the state after an operand on `s`. */
  function OperandAction(s: int, t: int): Action
    requires Expecting(s)
  {
    if TokenLevel(t) >= 0 && TokenLevel(t) >= MinLevel(s) then Shift(t + 5)
    else if s == 4 && t == 15 then Shift(15)
    else if s == 8 && t == 12 then Shift(23)
    else if s == 0 then Reduce(1)
    else if s == 1 then Reduce(9)
    else if s == 4 || s == 8 then Error
    else if s == 23 then Reduce(2)
    else Reduce(s - 6)
  }

  lemma AfterRightOperandAction(s: int, t: int)
    requires 9 <= s <= 11 && IsSymbol(t)
    ensures ActionOf(AfterOperand(s), t) == OperandAction(s, t)
  {
  }

  lemma AfterStrongOperandAction(s: int, t: int)
    requires 12 <= s <= 14 && IsSymbol(t)
    ensures ActionOf(AfterOperand(s), t) == OperandAction(s, t)
  {
  }

  lemma AfterWeakOperandAction(s: int, t: int)
    requires (s == 0 || s == 1 || s == 4) && IsSymbol(t)
    ensures ActionOf(AfterOperand(s), t) == OperandAction(s, t)
  {
  }

  lemma AfterBranchAction(s: int, t: int)
    requires (s == 8 || s == 23) && IsSymbol(t)
    ensures ActionOf(AfterOperand(s), t) == OperandAction(s, t)
  {
  }

  /** After an operand, exactly the operators that bind at least as strongly as the context
      demands are shifted; otherwise the construct closes. */
  lemma AfterOperandAction(s: int, t: int)
    requires Expecting(s) && IsSymbol(t)
    ensures ActionOf(AfterOperand(s), t) == OperandAction(s, t)
  {
    hide ActionOf, OperandAction;
    if 9 <= s <= 11 { AfterRightOperandAction(s, t); }
    else if 12 <= s <= 14 { AfterStrongOperandAction(s, t); }
    else if s == 8 || s == 23 { AfterBranchAction(s, t); }
    else { AfterWeakOperandAction(s, t); }
  }

  lemma OtherAction(s: int, t: int)
    requires s == 2 || s == 3 || s == 15 || s == 25 || s == 26
    requires IsSymbol(t)
    ensures ActionOf(s, t) ==
            if s == 2 then Reduce(11) else if s == 3 then Reduce(10) else if s == 15 then Reduce(12)
            else if t != 0 then Error else if s == 25 then Shift(26) else Accept
  {
    if s == 25 || s == 26 { EndAction(s, t); } else { LeafAction(s, t); }
  }

  lemma LeafAction(s: int, t: int)
    requires s == 2 || s == 3 || s == 15
    ensures ActionOf(s, t) == if s == 2 then Reduce(11) else if s == 3 then Reduce(10) else Reduce(12)
  {
    hide YyTable, YyCheck;
  }

  lemma EndAction(s: int, t: int)
    requires (s == 25 || s == 26) && IsSymbol(t)
    ensures ActionOf(s, t) == if t != 0 then Error else if s == 25 then Shift(26) else Accept
  {
    hide YyTable, YyCheck, YyPact, YyDefact;
    EndEntries();
    if t != 0 { OnlyEndMarker(t); }
  }

  lemma EndEntries()
    ensures YyPact(25) == 21 && YyTable(21) == 26 && YyCheck(21) == 0 && YyDefact(25) == 0
    ensures YyPact(26) == YYLAST && YyTable(YYLAST) == YYFINAL && YyCheck(YYLAST) == 0 && YyDefact(26) == 0
  {
  }

  lemma OnlyEndMarker(t: int)
    requires IsSymbol(t) && t != 0
    ensures YyCheck(21 + t) != t
  {
  }

  lemma GotoAction(rule: int, s: int)
    requires 1 <= rule <= 12 && Expecting(s)
    ensures GotoOf(rule, s) == if rule == 1 then 25 else AfterOperand(s)
  {
  }

  /** No state shifts the error token, so error recovery only unwinds the stack. */
  lemma NoErrorShift(s: int)
    ensures YyPact(s) == YYFLAG || YyPact(s) + YYTERROR < 0 || YyPact(s) + YYTERROR > YYLAST
            || YyCheck(YyPact(s) + YYTERROR) != YYTERROR
  {
  }
}
