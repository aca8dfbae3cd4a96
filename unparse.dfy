/**
 * An independent reference for the parser: a printer from AST nodes back to
 * tokens that adds parentheses only where the grammar needs them. The main
 * result, `ParseUnparse`, is that parsing the printed tokens gives the node
 * back, for every node whose numbers and names have the lexer's shapes.
 * `PrintedTextLexes` closes the loop through text: the printed tokens,
 * written side by side, lex back to themselves, so `infixToLatex` of the
 * printed text renders the node it came from.
 */
module Unparse {
  import opened Base
  import opened Lexer
  import opened Parser
  import opened Latex

  const LParen := Token(Symbol, "(")
  const RParen := Token(Symbol, ")")
  const Comma := Token(Symbol, ",")
  const Bang := Token(Symbol, "!")

  /**
   * The grammar level a node belongs to: 1 for `+`/`-` (expression), 2 for
   * `*`/`/` (term), 3 for `!` (factor), 4 for numbers and calls (primary).
   */
  function Level(n: Node): nat {
    match n
    case Binary(op, _, _) => if op == Add || op == Sub then 1 else 2
    case Factorial(_) => 3
    case _ => 4
  }

  /** The tokens of `n` where the grammar expects level `level`: parenthesised when `n` is lower. */
  function Unparse(n: Node, level: nat): seq<Token>
    decreases n, 2, 0
  {
    if Level(n) < level then [LParen] + Bare(n) + [RParen] else Bare(n)
  }

  /** The tokens of `n` without enclosing parentheses; operators are left-associative. */
  function Bare(n: Node): seq<Token>
    decreases n, 1, 0
  {
    match n
    case Num(t) => [Token(Number, t)]
    case Binary(op, l, r) =>
      Unparse(l, Level(n)) + [Token(Symbol, OpSymbol(op))] + Unparse(r, Level(n) + 1)
    case Factorial(a) => Unparse(a, 3) + [Bang]
    case Call(name, args) => [Token(Ident, name), LParen] + ArgList(n, 0) + [RParen]
  }

  /** The arguments of call `n` from the `k`-th on, comma-separated. */
  function ArgList(n: Node, k: nat): seq<Token>
    requires n.Call? && k <= |n.args|
    decreases n, 0, |n.args| - k
  {
    if k == |n.args| then []
    else (if k == 0 then [] else [Comma]) + Unparse(n.args[k], 1) + ArgList(n, k + 1)
  }

  /** A token an operand can start with. */
  predicate StartsOperand(t: Token) {
    || t == LParen
    || (t.kind == Number && IsNumeral(t.value))
    || (t.kind == Ident && IsWord(t.value))
  }

  lemma FirstToken(n: Node, level: nat)
    requires WFNode(n)
    ensures |Unparse(n, level)| >= 1 && StartsOperand(Unparse(n, level)[0])
    ensures Unparse(n, level)[0].value != ")" && Unparse(n, level)[0].value != ","
    decreases n
  {
    if Level(n) >= level {
      match n
      case Num(t) =>
        assert Unparse(n, level) == [Token(Number, t)];
        assert t[0] == '-' || IsDigit(t[0]);
      case Binary(_, l, r) => FirstToken(l, Level(n));
      case Factorial(a) => FirstToken(a, 3);
      case Call(name, _) =>
        assert Unparse(n, level)[0] == Token(Ident, name);
        assert name[0] != ')' && name[0] != ',';
    }
  }

  /** The parser stops after a factor here: no `!` follows. */
  predicate StopsFactor(ts: seq<Token>, e: nat) {
    !AtSymbol(ts, e, "!")
  }

  /** The parser stops after a term here: no `!`, `*` or `/` follows. */
  predicate StopsTerm(ts: seq<Token>, e: nat) {
    StopsFactor(ts, e) && !AtSymbol(ts, e, "*") && !AtSymbol(ts, e, "/")
  }

  /** The parser stops after an expression here: no operator follows. */
  predicate StopsExpr(ts: seq<Token>, e: nat) {
    StopsTerm(ts, e) && !AtSymbol(ts, e, "+") && !AtSymbol(ts, e, "-")
  }

  lemma Split3(ts: seq<Token>, i: nat, e: nat, a: seq<Token>, x: Token, b: seq<Token>)
    requires i <= e <= |ts| && ts[i..e] == a + [x] + b
    ensures ts[i..i + |a|] == a && ts[i + |a|] == x && ts[i + |a| + 1..e] == b
  {
    assert ts[i..e][..|a|] == a;
    assert ts[i..e][|a|] == x;
    assert ts[i..e][|a| + 1..] == b;
  }

  lemma SplitAt(ts: seq<Token>, i: nat, e: nat, a: seq<Token>, b: seq<Token>)
    requires i <= e <= |ts| && ts[i..e] == a + b
    ensures ts[i..i + |a|] == a && ts[i + |a|..e] == b
  {
    assert ts[i..e][..|a|] == a;
    assert ts[i..e][|a|..] == b;
  }

  lemma {:induction false} ExprFull(ts: seq<Token>, i: nat, e: nat, n: Node)
    requires WFNode(n) && i <= e <= |ts| && ts[i..e] == Unparse(n, 1) && StopsExpr(ts, e)
    ensures Expression(ts, i) == Ok((n, e))
    decreases e - i, 7
  {
    ExprRun(ts, i, e, n);
  }

  /** The left spine of `+`/`-` nodes is read by the loop of `parseExpression`. */
  lemma {:induction false} ExprRun(ts: seq<Token>, i: nat, e: nat, n: Node)
    requires WFNode(n) && i <= e <= |ts| && ts[i..e] == Unparse(n, 1) && StopsTerm(ts, e)
    ensures Expression(ts, i) == ExpressionRest(ts, e, n)
    decreases e - i, 6
  {
    if Level(n) >= 2 {
      assert Unparse(n, 1) == Unparse(n, 2);
      TermFull(ts, i, e, n);
    } else {
      var Binary(op, l, r) := n;
      var a := Unparse(l, 1);
      var opTok := Token(Symbol, OpSymbol(op));
      Split3(ts, i, e, a, opTok, Unparse(r, 2));
      var m := i + |a|;
      ExprRun(ts, i, m, l);
      TermFull(ts, m + 1, e, r);
      ExprStep(ts, m, e, op, l, r);
    }
  }

  /** One `+`/`-` step of the loop of `parseExpression`. */
  lemma ExprStep(ts: seq<Token>, m: nat, e: nat, op: BinOp, l: Node, r: Node)
    requires (op == Add || op == Sub) && m < e <= |ts| && ts[m] == Token(Symbol, OpSymbol(op))
    requires Term(ts, m + 1) == Ok((r, e))
    ensures ExpressionRest(ts, m, l) == ExpressionRest(ts, e, Binary(op, l, r))
  {
    assert AtSymbol(ts, m, OpSymbol(op));
  }

  lemma {:induction false} TermFull(ts: seq<Token>, i: nat, e: nat, n: Node)
    requires WFNode(n) && i <= e <= |ts| && ts[i..e] == Unparse(n, 2) && StopsTerm(ts, e)
    ensures Term(ts, i) == Ok((n, e))
    decreases e - i, 5
  {
    TermRun(ts, i, e, n);
  }

  /** The left spine of `*`/`/` nodes is read by the loop of `parseTerm`. */
  lemma {:induction false} TermRun(ts: seq<Token>, i: nat, e: nat, n: Node)
    requires WFNode(n) && i <= e <= |ts| && ts[i..e] == Unparse(n, 2) && StopsFactor(ts, e)
    ensures Term(ts, i) == TermRest(ts, e, n)
    decreases e - i, 4
  {
    if Level(n) != 2 {
      assert Unparse(n, 2) == Unparse(n, 3);
      FactorFull(ts, i, e, n);
    } else {
      var Binary(op, l, r) := n;
      var a := Unparse(l, 2);
      var opTok := Token(Symbol, OpSymbol(op));
      Split3(ts, i, e, a, opTok, Unparse(r, 3));
      var m := i + |a|;
      TermRun(ts, i, m, l);
      FactorFull(ts, m + 1, e, r);
      TermStep(ts, m, e, op, l, r);
    }
  }

  /** One `*`/`/` step of the loop of `parseTerm`. */
  lemma TermStep(ts: seq<Token>, m: nat, e: nat, op: BinOp, l: Node, r: Node)
    requires (op == Mul || op == Div) && m < e <= |ts| && ts[m] == Token(Symbol, OpSymbol(op))
    requires Factor(ts, m + 1) == Ok((r, e))
    ensures TermRest(ts, m, l) == TermRest(ts, e, Binary(op, l, r))
  {
    assert AtSymbol(ts, m, OpSymbol(op));
  }

  lemma {:induction false} FactorFull(ts: seq<Token>, i: nat, e: nat, n: Node)
    requires WFNode(n) && i <= e <= |ts| && ts[i..e] == Unparse(n, 3) && StopsFactor(ts, e)
    ensures Factor(ts, i) == Ok((n, e))
    decreases e - i, 3
  {
    FactorRun(ts, i, e, n);
  }

  /** Nested factorials are read by the loop of `parseFactor`. */
  lemma {:induction false} FactorRun(ts: seq<Token>, i: nat, e: nat, n: Node)
    requires WFNode(n) && i <= e <= |ts| && ts[i..e] == Unparse(n, 3)
    ensures Factor(ts, i) == Ok(FactorRest(ts, e, n))
    decreases e - i, 2
  {
    if Level(n) != 3 {
      assert Unparse(n, 3) == Unparse(n, 4);
      PrimaryFull(ts, i, e, n);
    } else {
      var Factorial(a) := n;
      Split3(ts, i, e, Unparse(a, 3), Bang, []);
      FactorRun(ts, i, e - 1, a);
    }
  }

  lemma {:induction false} PrimaryFull(ts: seq<Token>, i: nat, e: nat, n: Node)
    requires WFNode(n) && i <= e <= |ts| && ts[i..e] == Unparse(n, 4)
    ensures Primary(ts, i) == Ok((n, e))
    decreases e - i, 1
  {
    if Level(n) < 4 {
      PrimaryParen(ts, i, e, n);
    } else if n.Num? {
      assert ts[i] == ts[i..e][0];
    } else {
      PrimaryCall(ts, i, e, n);
    }
  }

  /** A lower-level node in parentheses is read by the `(` branch of `parsePrimary`. */
  lemma {:induction false} PrimaryParen(ts: seq<Token>, i: nat, e: nat, n: Node)
    requires WFNode(n) && i <= e <= |ts| && Level(n) < 4 && ts[i..e] == Unparse(n, 4)
    ensures Primary(ts, i) == Ok((n, e))
    decreases e - i, 0
  {
    assert Bare(n) == Unparse(n, 1);
    Split3(ts, i, e, [LParen] + Bare(n), RParen, []);
    Split3(ts, i, e - 1, [], LParen, Bare(n));
    ExprFull(ts, i + 1, e - 1, n);
  }

  /** A call is read by the `ident` branch of `parsePrimary`. */
  lemma {:induction false} PrimaryCall(ts: seq<Token>, i: nat, e: nat, n: Node)
    requires WFNode(n) && n.Call? && i <= e <= |ts| && ts[i..e] == Unparse(n, 4)
    ensures Primary(ts, i) == Ok((n, e))
    decreases e - i, 0
  {
    var head := [Token(Ident, n.name), LParen];
    Split3(ts, i, e, head + ArgList(n, 0), RParen, []);
    Split3(ts, i, e - 1, [Token(Ident, n.name)], LParen, ArgList(n, 0));
    assert ts[i] == ts[i..e - 1][0];
    if n.args != [] {
      ArgListAt(n, 0);
      assert WFNode(n.args[0]);
      FirstToken(n.args[0], 1);
      assert ts[i + 2] == ts[i + 2..e - 1][0];
      ArgsFull(ts, i + 2, e - 1, n);
    }
  }

  lemma ArgListAt(n: Node, k: nat)
    requires n.Call? && k < |n.args|
    ensures ArgList(n, k) == (if k == 0 then [] else [Comma]) + Unparse(n.args[k], 1) + ArgList(n, k + 1)
    ensures |Unparse(n.args[k], 1)| >= 1 && |ArgList(n, k)| >= 1
    ensures ArgList(n, k)[0] == if k == 0 then Unparse(n.args[k], 1)[0] else Comma
    ensures k + 1 < |n.args| ==> ArgList(n, k + 1) != [] && ArgList(n, k + 1)[0] == Comma
    ensures k + 1 == |n.args| ==> ArgList(n, k + 1) == []
  {
    FirstTokenAny(n.args[k], 1);
  }

  /** Every printed node has at least one token. */
  lemma FirstTokenAny(n: Node, level: nat)
    ensures |Unparse(n, level)| >= 1
    decreases n
  {
    if Level(n) >= level {
      match n
      case Num(_) =>
      case Binary(_, l, r) => FirstTokenAny(l, Level(n));
      case Factorial(a) => FirstTokenAny(a, 3);
      case Call(_, _) =>
    }
  }

  lemma {:induction false} ArgsFull(ts: seq<Token>, i: nat, e: nat, n: Node)
    requires n.Call? && |n.args| >= 1 && WFNode(n)
    requires i <= e < |ts| && ts[i..e] == ArgList(n, 0) && ts[e] == RParen
    ensures Arguments(ts, i) == Ok((n.args, e))
    decreases e - i, 9
  {
    ArgListAt(n, 0);
    var u := Unparse(n.args[0], 1);
    var m := i + |u|;
    SplitAt(ts, i, e, u, ArgList(n, 1));
    if 1 < |n.args| {
      assert ts[m] == ts[m..e][0];
    }
    assert WFNode(n.args[0]);
    ExprFull(ts, i, m, n.args[0]);
    ArgsRest(ts, m, e, n, 1, [n.args[0]]);
    ConsSlice(n.args);
  }

  lemma ConsSlice(xs: seq<Node>)
    requires |xs| >= 1
    ensures [xs[0]] + xs[1..] == xs
  {
  }

  lemma {:induction false} ArgsRest(ts: seq<Token>, i: nat, e: nat, n: Node, k: nat, acc: seq<Node>)
    requires n.Call? && 1 <= k <= |n.args| && WFNode(n)
    requires i <= e < |ts| && ts[i..e] == ArgList(n, k) && ts[e] == RParen
    ensures ArgumentsRest(ts, i, acc) == Ok((acc + n.args[k..], e))
    decreases e - i, 8
  {
    if k == |n.args| {
      assert acc + n.args[k..] == acc;
    } else {
      var m := ArgStep(ts, i, e, n, k);
      ArgsRest(ts, m, e, n, k + 1, acc + [n.args[k]]);
      assert acc + [n.args[k]] + n.args[k + 1..] == acc + n.args[k..];
    }
  }

  /** One `, expression` of an argument list, read by the `while (match(","))` loop. */
  lemma {:induction false} ArgStep(ts: seq<Token>, i: nat, e: nat, n: Node, k: nat) returns (m: nat)
    requires n.Call? && 1 <= k < |n.args| && WFNode(n)
    requires i <= e < |ts| && ts[i..e] == ArgList(n, k) && ts[e] == RParen
    ensures i < m <= e && ts[m..e] == ArgList(n, k + 1)
    ensures forall acc :: ArgumentsRest(ts, i, acc) == ArgumentsRest(ts, m, acc + [n.args[k]])
    decreases e - i, 7
  {
    ArgListAt(n, k);
    var u := Unparse(n.args[k], 1);
    m := i + 1 + |u|;
    Split3(ts, i, e, [], Comma, u + ArgList(n, k + 1));
    SplitAt(ts, i + 1, e, u, ArgList(n, k + 1));
    if k + 1 < |n.args| {
      assert ts[m] == ts[m..e][0];
    }
    assert WFNode(n.args[k]);
    ExprFull(ts, i + 1, m, n.args[k]);
  }

  /**
   * The parser inverts the printer: every node whose numbers and names have
   * the lexer's shapes is parsed back from its printed tokens.
   */
  lemma ParseUnparse(n: Node)
    requires WFNode(n)
    ensures Parse(Unparse(n, 1)) == Ok(n)
  {
    var ts := Unparse(n, 1);
    assert ts[0..|ts|] == ts;
    ExprFull(ts, 0, |ts|, n);
  }

  // ---------------------------------------------------------------------------
  // Parse errors after a printed expression

  /** A failing term after a printed `+`/`-` operand fails the expression. */
  lemma SumThenFail(ts: seq<Token>, e: nat, n: Node, op: BinOp, x: ParseError)
    requires WFNode(n) && (op == Add || op == Sub) && e < |ts|
    requires ts[0..e] == Unparse(n, 1) && ts[e] == Token(Symbol, OpSymbol(op))
    requires Term(ts, e + 1) == Err(x)
    ensures Expression(ts, 0) == Err(x)
  {
    ExprRun(ts, 0, e, n);
    assert AtSymbol(ts, e, OpSymbol(op));
  }

  /** A failing factor after a printed `*`/`/` operand fails the term. */
  lemma TermThenFail(ts: seq<Token>, i: nat, e: nat, n: Node, op: BinOp, x: ParseError)
    requires WFNode(n) && (op == Mul || op == Div) && i <= e < |ts|
    requires ts[i..e] == Unparse(n, 2) && ts[e] == Token(Symbol, OpSymbol(op))
    requires Factor(ts, e + 1) == Err(x)
    ensures Term(ts, i) == Err(x)
  {
    TermRun(ts, i, e, n);
    assert AtSymbol(ts, e, OpSymbol(op));
  }

  /** A failing factor after a printed expression and `*`/`/` fails the expression. */
  lemma ProductThenFail(ts: seq<Token>, e: nat, n: Node, op: BinOp, x: ParseError)
    requires WFNode(n) && (op == Mul || op == Div) && e < |ts|
    requires ts[0..e] == Unparse(n, 1) && ts[e] == Token(Symbol, OpSymbol(op))
    requires Factor(ts, e + 1) == Err(x)
    ensures Expression(ts, 0) == Err(x)
  {
    if Level(n) >= 2 {
      assert Unparse(n, 1) == Unparse(n, 2);
      TermThenFail(ts, 0, e, n, op, x);
    } else {
      var Binary(o, l, r) := n;
      var a := Unparse(l, 1);
      Split3(ts, 0, e, a, Token(Symbol, OpSymbol(o)), Unparse(r, 2));
      TermThenFail(ts, |a| + 1, e, r, op, x);
      SumThenFail(ts, |a|, l, o, x);
    }
  }

  /**
   * A printed expression and an operator, and then an operand the primary
   * cannot read: the primary's error is what the parse throws.
   */
  lemma AfterOperator(ts: seq<Token>, e: nat, n: Node, op: BinOp)
    requires WFNode(n) && e < |ts| && ts[..e] == Unparse(n, 1) && ts[e] == Token(Symbol, OpSymbol(op))
    requires Primary(ts, e + 1).Err?
    ensures Parse(ts) == Err(Primary(ts, e + 1).error)
  {
    assert ts[0..e] == ts[..e];
    var x := Primary(ts, e + 1).error;
    ExpressionFails(ts, e + 1);
    assert Factor(ts, e + 1) == Err(x);
    if op == Add || op == Sub {
      SumThenFail(ts, e, n, op, x);
    } else {
      ProductThenFail(ts, e, n, op, x);
    }
  }

  /** An operator with nothing after it: `unexpected end`. */
  lemma ParseDanglingOperator(n: Node, op: BinOp)
    requires WFNode(n)
    ensures Parse(Unparse(n, 1) + [Token(Symbol, OpSymbol(op))]) == Err(UnexpectedEnd)
  {
    var ts := Unparse(n, 1) + [Token(Symbol, OpSymbol(op))];
    assert ts[..|ts| - 1] == Unparse(n, 1);
    AfterOperator(ts, |ts| - 1, n, op);
  }

  /** An operator followed by a symbol other than `(`: `unexpected token` naming it. */
  lemma ParseMissingOperand(n: Node, op: BinOp, t: Token, rest: seq<Token>)
    requires WFNode(n) && t.kind == Symbol && t.value != "("
    ensures Parse(Unparse(n, 1) + [Token(Symbol, OpSymbol(op)), t] + rest) == Err(UnexpectedToken(t.value))
  {
    var u := Unparse(n, 1);
    var ts := u + [Token(Symbol, OpSymbol(op)), t] + rest;
    assert ts[..|u|] == u && ts[|u|] == Token(Symbol, OpSymbol(op)) && ts[|u| + 1] == t;
    AfterOperator(ts, |u|, n, op);
  }

  /**
   * A whole printed expression followed by a token no operator loop takes
   * (a `)`, a `,`, a number or a name): `extra tokens`.
   */
  lemma ParseExtraTokens(n: Node, rest: seq<Token>)
    requires WFNode(n) && rest != [] && StopsExpr(rest, 0)
    ensures Parse(Unparse(n, 1) + rest) == Err(ExtraTokens)
  {
    var u := Unparse(n, 1);
    var ts := u + rest;
    assert ts[0..|u|] == u && ts[|u|] == rest[0];
    ExprFull(ts, 0, |u|, n);
  }

  /**
   * A `(` and a whole printed expression with no `)` after it (the tokens end,
   * or a `,` or a number follows): `expected )`.
   */
  lemma ParseUnclosedParen(n: Node, rest: seq<Token>)
    requires WFNode(n) && StopsExpr(rest, 0) && !AtValue(rest, 0, ")")
    ensures Parse([LParen] + Unparse(n, 1) + rest) == Err(Expected(")"))
  {
    var u := Unparse(n, 1);
    var ts := [LParen] + u + rest;
    var e := 1 + |u|;
    assert ts[1..e] == u;
    assert rest != [] ==> ts[e] == rest[0];
    ExprFull(ts, 1, e, n);
    assert Primary(ts, 0) == Err(Expected(")"));
    ExpressionFails(ts, 0);
  }

  // ---------------------------------------------------------------------------
  // Printed text: the tokens back to back, lexed again

  /** A token an operand can end with. */
  predicate EndsOperand(t: Token) {
    t == RParen || t == Bang || t.kind == Number
  }

  lemma {:induction false} LastToken(n: Node, level: nat)
    ensures |Unparse(n, level)| >= 1 && EndsOperand(Unparse(n, level)[|Unparse(n, level)| - 1])
    decreases n
  {
    FirstTokenAny(n, level);
    if Level(n) >= level {
      match n
      case Num(_) =>
      case Binary(_, l, r) => LastToken(r, Level(n) + 1);
      case Factorial(_) =>
      case Call(_, _) =>
    }
  }

  /** No token ever merges with a following `)` or `,`. */
  lemma NoMergeBeforeClose(before: seq<Token>, t: Token, c: char)
    requires c == ')' || c == ','
    ensures !Merges(before, t, c)
  {
  }

  lemma SingleSeparated(t: Token)
    requires WellFormed(t)
    ensures AllWellFormed([t]) && Separated([t])
  {
    assert [t][..0] == [];
  }

  /** The printed tokens of a well-formed node are well formed and separated. */
  lemma {:induction false} UnparseSeparated(n: Node, level: nat)
    requires WFNode(n)
    ensures AllWellFormed(Unparse(n, level)) && Separated(Unparse(n, level))
    decreases n, 2
  {
    BareSeparated(n);
    if Level(n) < level {
      var b := Bare(n);
      SingleSeparated(LParen);
      SeparatedConcat([LParen], b);
      SingleSeparated(RParen);
      if b != [] {
        NoMergeBeforeClose(([LParen] + b)[..|b|], b[|b| - 1], ')');
      }
      SeparatedConcat([LParen] + b, [RParen]);
    }
  }

  lemma {:induction false} BareSeparated(n: Node)
    requires WFNode(n)
    ensures AllWellFormed(Bare(n)) && Separated(Bare(n))
    decreases n, 1
  {
    match n
    case Num(t) =>
      SingleSeparated(Token(Number, t));
    case Binary(op, l, r) =>
      UnparseSeparated(l, Level(n));
      UnparseSeparated(r, Level(n) + 1);
      LastToken(l, Level(n));
      OperatorSeam(Unparse(l, Level(n)), Token(Symbol, OpSymbol(op)), Unparse(r, Level(n) + 1));
    case Factorial(a) =>
      var u := Unparse(a, 3);
      UnparseSeparated(a, 3);
      SingleSeparated(Bang);
      SeparatedConcat(u, [Bang]);
    case Call(name, args) =>
      ArgListSeparated(n, 0);
      CallSeam(name, ArgList(n, 0));
  }

  /** An operator between two operands: the left one ends in `)`, `!` or a number. */
  lemma OperatorSeam(a: seq<Token>, o: Token, b: seq<Token>)
    requires AllWellFormed(a) && Separated(a) && AllWellFormed(b) && Separated(b)
    requires a != [] && EndsOperand(a[|a| - 1])
    requires o.kind == Symbol && o.value in {"+", "-", "*", "/"}
    ensures AllWellFormed(a + [o] + b) && Separated(a + [o] + b)
  {
    SingleSeparated(o);
    SeparatedConcat(a, [o]);
    assert (a + [o])[..|a|] == a;
    SeparatedConcat(a + [o], b);
  }

  /** A name, `(`, the argument tokens and `)`. */
  lemma CallSeam(name: string, u: seq<Token>)
    requires IsWord(name) && AllWellFormed(u) && Separated(u)
    ensures AllWellFormed([Token(Ident, name), LParen] + u + [RParen])
    ensures Separated([Token(Ident, name), LParen] + u + [RParen])
  {
    var x := [Token(Ident, name), LParen];
    assert AllWellFormed(x) && Separated(x) by {
      assert x[..1] == [Token(Ident, name)];
      assert x[..0] == [];
    }
    assert x[..1] == [Token(Ident, name)];
    SeparatedConcat(x, u);
    SingleSeparated(RParen);
    NoMergeBeforeClose((x + u)[..|x + u| - 1], (x + u)[|x + u| - 1], ')');
    SeparatedConcat(x + u, [RParen]);
  }

  lemma {:induction false} ArgListSeparated(n: Node, k: nat)
    requires n.Call? && k <= |n.args| && WFNode(n)
    ensures AllWellFormed(ArgList(n, k)) && Separated(ArgList(n, k))
    decreases n, 0, |n.args| - k
  {
    if k < |n.args| {
      ArgListAt(n, k);
      var c := if k == 0 then [] else [Comma];
      var u := Unparse(n.args[k], 1);
      var rest := ArgList(n, k + 1);
      assert WFNode(n.args[k]);
      UnparseSeparated(n.args[k], 1);
      ArgListSeparated(n, k + 1);
      if k == 0 {
        assert c + u == u;
      } else {
        SingleSeparated(Comma);
        SeparatedConcat(c, u);
      }
      if rest != [] {
        NoMergeBeforeClose((c + u)[..|c + u| - 1], (c + u)[|c + u| - 1], ',');
      }
      SeparatedConcat(c + u, rest);
    }
  }

  /** The printed tokens, written back to back as text, lex to themselves. */
  lemma PrintedTextLexes(n: Node)
    requires WFNode(n)
    ensures Lex(Join(Unparse(n, 1))) == Ok(Unparse(n, 1))
  {
    UnparseSeparated(n, 1);
    LexOfJoin(Unparse(n, 1));
  }

  /**
   * The whole of `infixToLatex` on printed text: lexing and parsing the
   * printed form of a node recovers the node, so the rendering is the node's
   * own LaTeX and never the `\text{...}` fallback.
   */
  lemma InfixToLatexOfPrinted(n: Node)
    requires WFNode(n)
    ensures InfixToLatex(Join(Unparse(n, 1))) == ToLatex(n)
  {
    PrintedTextLexes(n);
    ParseUnparse(n);
  }

  lemma JoinPrefix(ts: seq<Token>, k: nat)
    requires 0 < k <= |ts|
    ensures Join(ts[..k]) == Join(ts[..k - 1]) + ts[k - 1].value
  {
    assert ts[..k][..k - 1] == ts[..k - 1];
  }

  /** A numeral prints as its own token at any level up to a primary's. */
  lemma PrintsNumeral(t: string, level: nat)
    requires level <= 4
    ensures Unparse(Num(t), level) == [Token(Number, t)]
  {
  }

  /** `1 - (2 + 3)` prints as `1-(2+3)`. */
  lemma PrintsRightGrouped()
    ensures WFNode(Binary(Sub, Num("1"), Binary(Add, Num("2"), Num("3"))))
    ensures Join(Unparse(Binary(Sub, Num("1"), Binary(Add, Num("2"), Num("3"))), 1)) == "1-(2+3)"
  {
    assert IsNumeral("1") && IsNumeral("2") && IsNumeral("3");
    var inner := Binary(Add, Num("2"), Num("3"));
    PrintsNumeral("1", 1);
    PrintsNumeral("2", 1);
    PrintsNumeral("3", 2);
    var v := Unparse(inner, 2);
    assert v == [LParen, Token(Number, "2"), Token(Symbol, "+"), Token(Number, "3"), RParen];
    var u := Unparse(Binary(Sub, Num("1"), inner), 1);
    assert u == [Token(Number, "1"), Token(Symbol, "-")] + v;
    Spell7(u, "1", "-", "(", "2", "+", "3", ")");
  }

  /** `(1 - 2) + 3` prints as `1-2+3`. */
  lemma PrintsLeftNested()
    ensures WFNode(Binary(Add, Binary(Sub, Num("1"), Num("2")), Num("3")))
    ensures Join(Unparse(Binary(Add, Binary(Sub, Num("1"), Num("2")), Num("3")), 1)) == "1-2+3"
  {
    var inner := Binary(Sub, Num("1"), Num("2"));
    var n := Binary(Add, inner, Num("3"));
    assert WFNode(n) by {
      assert IsNumeral("1") && IsNumeral("2") && IsNumeral("3");
    }
    var v := Unparse(inner, 1);
    assert v == [Token(Number, "1"), Token(Symbol, "-"), Token(Number, "2")] by {
      PrintsNumeral("1", 1);
      PrintsNumeral("2", 2);
    }
    var u := Unparse(n, 1);
    assert u == v + [Token(Symbol, "+"), Token(Number, "3")] by {
      PrintsNumeral("3", 2);
    }
    Spell5(u, "1", "-", "2", "+", "3");
    assert "1" + "-" + "2" + "+" + "3" == "1-2+3";
  }

  /** The text of five tokens. */
  lemma Spell5(u: seq<Token>, a: string, b: string, c: string, d: string, e: string)
    requires |u| == 5 && u[0].value == a && u[1].value == b && u[2].value == c
    requires u[3].value == d && u[4].value == e
    ensures Join(u) == a + b + c + d + e
  {
    assert Join(u[..1]) == a by { JoinPrefix(u, 1); assert u[..0] == []; }
    assert Join(u[..2]) == a + b by { JoinPrefix(u, 2); }
    assert Join(u[..3]) == a + b + c by { JoinPrefix(u, 3); }
    assert Join(u[..4]) == a + b + c + d by { JoinPrefix(u, 4); }
    assert Join(u[..5]) == a + b + c + d + e by { JoinPrefix(u, 5); }
    assert u[..5] == u;
  }

  /** The text of seven tokens. */
  lemma Spell7(u: seq<Token>, a: string, b: string, c: string, d: string, e: string, f: string, g: string)
    requires |u| == 7 && u[0].value == a && u[1].value == b && u[2].value == c
    requires u[3].value == d && u[4].value == e && u[5].value == f && u[6].value == g
    ensures Join(u) == a + b + c + d + e + f + g
  {
    assert Join(u[..5]) == a + b + c + d + e by { Spell5(u[..5], a, b, c, d, e); }
    assert Join(u[..6]) == a + b + c + d + e + f by { JoinPrefix(u, 6); }
    assert Join(u[..7]) == a + b + c + d + e + f + g by { JoinPrefix(u, 7); }
    assert u[..7] == u;
  }

  /**
   * The subtraction finding end to end: `infixToLatex` shows the text
   * `1-(2+3)` (value -4) exactly as it shows `1-2+3` (value 2).
   */
  lemma InfixToLatexLosesGrouping()
    ensures InfixToLatex("1-(2+3)") == "1 - 2 + 3"
    ensures InfixToLatex("1-2+3") == "1 - 2 + 3"
  {
    PrintsRightGrouped();
    PrintsLeftNested();
    InfixToLatexOfPrinted(Binary(Sub, Num("1"), Binary(Add, Num("2"), Num("3"))));
    InfixToLatexOfPrinted(Binary(Add, Binary(Sub, Num("1"), Num("2")), Num("3")));
    SubtractionLosesGroupingExample();
  }
}
