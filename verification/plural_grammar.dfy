/** Expression trees, tokens and the precedence grammar of plural-form expressions. */
module PluralGrammar {

  /** The binary members of `enum operator`. */
  datatype Operator =
    | Mult | Divide | Module
    | Plus | Minus
    | LessThan | GreaterThan | LessOrEqual | GreaterOrEqual
    | Equal | NotEqual
    | LAnd | LOr

  /** `struct expression`: `nargs` and `operation` become the constructor. */
  datatype Expr =
    | Var
    | Num(n: nat)
    | LNot(right: Expr)
    | Binary(op: Operator, left: Expr, right: Expr)
    | QMop(bexp: Expr, tbranch: Expr, fbranch: Expr)

  /** `YYSTYPE`. `Unset` marks a union that no lexer branch or action has written. */
  datatype Value = Unset | NumV(num: nat) | OpV(op: Operator) | ExpV(exp: Expr)

  /** A token as `yylex` returns it: the external code and `*lval`. */
  datatype Token = Token(code: int, val: Value)

  const YYEOF := 0
  const YYERRCODE := 256
  const EQUOP2 := 257
  const CMPOP2 := 258
  const ADDOP2 := 259
  const MULOP2 := 260
  const NUMBER := 261

  const EOF_TOKEN := Token(YYEOF, Unset)

  function Code(c: char): int { c as int }

  /** The token that denotes a binary operator. */
  function OpToken(op: Operator): Token {
    match op
    case LOr => Token(Code('|'), Unset)
    case LAnd => Token(Code('&'), Unset)
    case Equal | NotEqual => Token(EQUOP2, OpV(op))
    case LessThan | GreaterThan | LessOrEqual | GreaterOrEqual => Token(CMPOP2, OpV(op))
    case Plus | Minus => Token(ADDOP2, OpV(op))
    case Mult | Divide | Module => Token(MULOP2, OpV(op))
  }

  /** Binding strength of an operator: `|` binds weakest; `?:` has level 0, a unary or
      primary expression level 7 (sections 6.5.3 to 6.5.15 of ISO/IEC 9899:1999). */
  function OpLevel(op: Operator): int {
    match op
    case LOr => 1
    case LAnd => 2
    case Equal | NotEqual => 3
    case LessThan | GreaterThan | LessOrEqual | GreaterOrEqual => 4
    case Plus | Minus => 5
    case Mult | Divide | Module => 6
  }

  /** A derivation: an expression together with its parentheses. */
  datatype Cst =
    | CVar
    | CNum(n: nat)
    | CNot(right: Cst)
    | CBin(op: Operator, left: Cst, right: Cst)
    | CCond(bexp: Cst, tbranch: Cst, fbranch: Cst)
    | CParen(inner: Cst)

  function Level(c: Cst): int {
    match c
    case CCond(_, _, _) => 0
    case CBin(op, _, _) => OpLevel(op)
    case _ => 7
  }

  /** `c` derives from the precedence grammar: binary operators associate to the left,
      `?:` to the right, `!` applies to a unary expression. */
  predicate WellFormed(c: Cst) {
    match c
    case CVar | CNum(_) => true
    case CNot(e) => WellFormed(e) && Level(e) == 7
    case CBin(op, l, r) => WellFormed(l) && WellFormed(r) && Level(l) >= OpLevel(op) && Level(r) > OpLevel(op)
    case CCond(b, t, f) => WellFormed(b) && WellFormed(t) && WellFormed(f) && Level(b) >= 1
    case CParen(e) => WellFormed(e)
  }

  /** The sentence of a derivation. */
  function Yield(c: Cst): seq<Token> {
    match c
    case CVar => [Token(Code('n'), Unset)]
    case CNum(n) => [Token(NUMBER, NumV(n))]
    case CNot(e) => [Token(Code('!'), Unset)] + Yield(e)
    case CBin(op, l, r) => Yield(l) + [OpToken(op)] + Yield(r)
    case CCond(b, t, f) =>
      Yield(b) + [Token(Code('?'), Unset)] + Yield(t) + [Token(Code(':'), Unset)] + Yield(f)
    case CParen(e) => [Token(Code('('), Unset)] + Yield(e) + [Token(Code(')'), Unset)]
  }

  /** The tree that a derivation denotes. */
  function Ast(c: Cst): Expr {
    match c
    case CVar => Var
    case CNum(n) => Num(n)
    case CNot(e) => LNot(Ast(e))
    case CBin(op, l, r) => Binary(op, Ast(l), Ast(r))
    case CCond(b, t, f) => QMop(Ast(b), Ast(t), Ast(f))
    case CParen(e) => Ast(e)
  }

  /** Adds parentheses when `c` binds too weakly for its place. */
  function Wrap(c: Cst, level: int): Cst {
    if Level(c) >= level then c else CParen(c)
  }

  /** `e` printed with exactly the parentheses its operators' precedence requires. */
  function Parenthesize(e: Expr): Cst {
    match e
    case Var => CVar
    case Num(n) => CNum(n)
    case LNot(r) => CNot(Wrap(Parenthesize(r), 7))
    case Binary(op, l, r) =>
      CBin(op, Wrap(Parenthesize(l), OpLevel(op)), Wrap(Parenthesize(r), OpLevel(op) + 1))
    case QMop(b, t, f) => CCond(Wrap(Parenthesize(b), 1), Parenthesize(t), Parenthesize(f))
  }

  lemma WrapCorrect(c: Cst, level: int)
    requires WellFormed(c) && level <= 7
    ensures WellFormed(Wrap(c, level)) && Ast(Wrap(c, level)) == Ast(c) && Level(Wrap(c, level)) >= level
  {
  }

  lemma NotCorrect(c: Cst)
    requires WellFormed(c) && Level(c) >= 7
    ensures WellFormed(CNot(c)) && Ast(CNot(c)) == LNot(Ast(c))
  {
    hide OpLevel;
    LevelAtMost(c);
  }

  lemma LevelAtMost(c: Cst)
    ensures Level(c) <= 7
  {
  }

  lemma BinaryCorrect(op: Operator, l: Cst, r: Cst)
    requires WellFormed(l) && WellFormed(r) && Level(l) >= OpLevel(op) && Level(r) >= OpLevel(op) + 1
    ensures WellFormed(CBin(op, l, r)) && Ast(CBin(op, l, r)) == Binary(op, Ast(l), Ast(r))
  {
    hide OpLevel, Level;
  }

  lemma CondCorrect(b: Cst, t: Cst, f: Cst)
    requires WellFormed(b) && WellFormed(t) && WellFormed(f) && Level(b) >= 1
    ensures WellFormed(CCond(b, t, f)) && Ast(CCond(b, t, f)) == QMop(Ast(b), Ast(t), Ast(f))
  {
    hide OpLevel, Level;
  }

  lemma {:induction false} ParenthesizeCorrect(e: Expr)
    ensures WellFormed(Parenthesize(e)) && Ast(Parenthesize(e)) == e
  {
    LeafCorrect(e);
    hide WellFormed, Ast, Wrap, Level;
    match e
    case Var =>
    case Num(_) =>
    case LNot(r) =>
      ParenthesizeCorrect(r);
      WrapCorrect(Parenthesize(r), 7);
      NotCorrect(Wrap(Parenthesize(r), 7));
    case Binary(op, l, r) =>
      ParenthesizeCorrect(l);
      ParenthesizeCorrect(r);
      WrapCorrect(Parenthesize(l), OpLevel(op));
      WrapCorrect(Parenthesize(r), OpLevel(op) + 1);
      BinaryCorrect(op, Wrap(Parenthesize(l), OpLevel(op)), Wrap(Parenthesize(r), OpLevel(op) + 1));
    case QMop(b, t, f) =>
      ParenthesizeCorrect(b);
      ParenthesizeCorrect(t);
      ParenthesizeCorrect(f);
      WrapCorrect(Parenthesize(b), 1);
      CondCorrect(Wrap(Parenthesize(b), 1), Parenthesize(t), Parenthesize(f));
  }

  lemma LeafCorrect(e: Expr)
    ensures e.Var? || e.Num? ==> WellFormed(Parenthesize(e)) && Ast(Parenthesize(e)) == e
  {
  }

  /** A derivation with as many parentheses as needed for its place is no longer than any other one for its tree. */
  lemma WrapShortest(c: Cst, level: int)
    requires level <= Level(c)
    requires |Yield(Parenthesize(Ast(c)))| <= |Yield(c)|
    requires !c.CParen? ==> Level(c) == Level(Parenthesize(Ast(c)))
    requires c.CParen? ==> |Yield(Parenthesize(Ast(c)))| + 2 <= |Yield(c)|
    ensures |Yield(Wrap(Parenthesize(Ast(c)), level))| <= |Yield(c)|
  {
    hide Parenthesize, Ast;
  }

  /** No well-formed derivation of the same tree is written with fewer tokens. */
  lemma {:induction false} ParenthesizeShortest(c: Cst)
    requires WellFormed(c)
    ensures |Yield(Parenthesize(Ast(c)))| <= |Yield(c)|
    ensures !c.CParen? ==> Level(c) == Level(Parenthesize(Ast(c)))
    ensures c.CParen? ==> |Yield(Parenthesize(Ast(c)))| + 2 <= |Yield(c)|
  {
    hide OpLevel, Wrap;
    match c
    case CVar =>
    case CNum(_) =>
    case CNot(e) =>
      ParenthesizeShortest(e);
      WrapShortest(e, 7);
    case CBin(op, l, r) =>
      ParenthesizeShortest(l);
      ParenthesizeShortest(r);
      WrapShortest(l, OpLevel(op));
      WrapShortest(r, OpLevel(op) + 1);
    case CCond(b, y, z) =>
      ParenthesizeShortest(b);
      ParenthesizeShortest(y);
      ParenthesizeShortest(z);
      WrapShortest(b, 1);
    case CParen(e) => ParenthesizeShortest(e);
  }
}
