/**
 * The recursive-descent parser `parseToAst` (server.js:96-174, copied at
 * app.js:88-166): four mutually recursive functions over a shared cursor
 * `idx`, for the grammar
 *
 *   expression := term (("+" | "-") term)*
 *   term       := factor (("*" | "/") factor)*
 *   factor     := primary "!"*
 *   primary    := number | ident "(" [expression ("," expression)*] ")"
 *               | "(" expression ")"
 *
 * The functions `Expression` ... `Primary` are the reference definition: each
 * takes a cursor and returns the node and the cursor after it. The class
 * `Parser` is the source's closure state (the token list and `idx`) with one
 * method per inner function, each proved equal to its reference function.
 */
module Parser {
  import opened Base
  import opened Lexer

  datatype BinOp = Add | Sub | Mul | Div

  /** The AST node kinds `number`, `binary`, `factorial` and `func`. */
  datatype Node =
    | Num(text: string)
    | Binary(op: BinOp, left: Node, right: Node)
    | Factorial(arg: Node)
    | Call(name: string, args: seq<Node>)

  /** The four messages the parser throws. */
  datatype ParseError =
    | UnexpectedEnd                 // "unexpected end"
    | Expected(what: string)        // "expected " + value
    | UnexpectedToken(what: string) // "unexpected token: " + value
    | ExtraTokens                   // "extra tokens"

  function OpSymbol(op: BinOp): string {
    match op
    case Add => "+"
    case Sub => "-"
    case Mul => "*"
    case Div => "/"
  }

  /** `match(value)` compares the token's value only, whatever its type. */
  predicate AtValue(ts: seq<Token>, i: nat, v: string) {
    i < |ts| && ts[i].value == v
  }

  /** The loop guards compare the type (`symbol`) and the value. */
  predicate AtSymbol(ts: seq<Token>, i: nat, v: string) {
    i < |ts| && ts[i].kind == Symbol && ts[i].value == v
  }

  /** A parse result paired with the cursor after it. */
  type Parsed<T> = Result<(T, nat), ParseError>

  function Expression(ts: seq<Token>, i: nat): (r: Parsed<Node>)
    requires i <= |ts|
    ensures r.Ok? ==> i < r.value.1 <= |ts|
    decreases |ts| - i, 3
  {
    var p :- Term(ts, i);
    ExpressionRest(ts, p.1, p.0)
  }

  /** The `while` loop of `parseExpression`, with `left` the node built so far. */
  function ExpressionRest(ts: seq<Token>, i: nat, left: Node): (r: Parsed<Node>)
    requires i <= |ts|
    ensures r.Ok? ==> i <= r.value.1 <= |ts|
    decreases |ts| - i, 3
  {
    if AtSymbol(ts, i, "+") || AtSymbol(ts, i, "-") then
      var op := if ts[i].value == "+" then Add else Sub;
      var p :- Term(ts, i + 1);
      ExpressionRest(ts, p.1, Binary(op, left, p.0))
    else Ok((left, i))
  }

  function Term(ts: seq<Token>, i: nat): (r: Parsed<Node>)
    requires i <= |ts|
    ensures r.Ok? ==> i < r.value.1 <= |ts|
    decreases |ts| - i, 2
  {
    var p :- Factor(ts, i);
    TermRest(ts, p.1, p.0)
  }

  function TermRest(ts: seq<Token>, i: nat, left: Node): (r: Parsed<Node>)
    requires i <= |ts|
    ensures r.Ok? ==> i <= r.value.1 <= |ts|
    decreases |ts| - i, 2
  {
    if AtSymbol(ts, i, "*") || AtSymbol(ts, i, "/") then
      var op := if ts[i].value == "*" then Mul else Div;
      var p :- Factor(ts, i + 1);
      TermRest(ts, p.1, Binary(op, left, p.0))
    else Ok((left, i))
  }

  function Factor(ts: seq<Token>, i: nat): (r: Parsed<Node>)
    requires i <= |ts|
    ensures r.Ok? ==> i < r.value.1 <= |ts|
    decreases |ts| - i, 1
  {
    var p :- Primary(ts, i);
    Ok(FactorRest(ts, p.1, p.0))
  }

  /** Every `!` that follows wraps the node once more. */
  function FactorRest(ts: seq<Token>, i: nat, node: Node): (r: (Node, nat))
    requires i <= |ts|
    ensures i <= r.1 <= |ts|
    decreases |ts| - i
  {
    if AtSymbol(ts, i, "!") then FactorRest(ts, i + 1, Factorial(node)) else (node, i)
  }

  function Primary(ts: seq<Token>, i: nat): (r: Parsed<Node>)
    requires i <= |ts|
    ensures r.Ok? ==> i < r.value.1 <= |ts|
    decreases |ts| - i, 0
  {
    if i == |ts| then Err(UnexpectedEnd)
    else
      var tok := ts[i];
      if tok.kind == Number then Ok((Num(tok.value), i + 1))
      else if tok.kind == Ident then
        if !AtValue(ts, i + 1, "(") then Err(Expected("("))
        else if AtValue(ts, i + 2, ")") then Ok((Call(tok.value, []), i + 3))
        else
          var a :- Arguments(ts, i + 2);
          if AtValue(ts, a.1, ")") then Ok((Call(tok.value, a.0), a.1 + 1))
          else Err(Expected(")"))
      else if tok.value == "(" then
        var e :- Expression(ts, i + 1);
        if AtValue(ts, e.1, ")") then Ok((e.0, e.1 + 1)) else Err(Expected(")"))
      else Err(UnexpectedToken(tok.value))
  }

  /** A non-empty comma-separated argument list, up to (not including) the `)`. */
  function Arguments(ts: seq<Token>, i: nat): (r: Parsed<seq<Node>>)
    requires i <= |ts|
    ensures r.Ok? ==> i < r.value.1 <= |ts| && |r.value.0| >= 1
    decreases |ts| - i, 4
  {
    var e :- Expression(ts, i);
    ArgumentsRest(ts, e.1, [e.0])
  }

  function ArgumentsRest(ts: seq<Token>, i: nat, acc: seq<Node>): (r: Parsed<seq<Node>>)
    requires i <= |ts|
    ensures r.Ok? ==> i <= r.value.1 <= |ts| && |r.value.0| >= |acc|
    decreases |ts| - i, 4
  {
    if AtValue(ts, i, ",") then
      var e :- Expression(ts, i + 1);
      ArgumentsRest(ts, e.1, acc + [e.0])
    else Ok((acc, i))
  }

  /** Reference definition of `parseToAst`: one expression and nothing after it. */
  function Parse(ts: seq<Token>): Result<Node, ParseError> {
    var p :- Expression(ts, 0);
    if p.1 < |ts| then Err(ExtraTokens) else Ok(p.0)
  }

  /** An error of the primary at `i` is the error of the term and of the expression there. */
  lemma ExpressionFails(ts: seq<Token>, i: nat)
    requires i <= |ts| && Primary(ts, i).Err?
    ensures Term(ts, i) == Err(Primary(ts, i).error)
    ensures Expression(ts, i) == Err(Primary(ts, i).error)
  {
    assert Factor(ts, i) == Err(Primary(ts, i).error);
  }

  /**
   * What `parseToAst` throws at the first token: `unexpected end` when there
   * is none, `unexpected token` for a symbol other than `(` (so a `-` before
   * `(`), and `expected (` for a name that no `(` follows.
   */
  lemma ParseFirstTokenErrors(ts: seq<Token>)
    ensures ts == [] ==> Parse(ts) == Err(UnexpectedEnd)
    ensures ts != [] && ts[0].kind == Symbol && ts[0].value != "(" ==> Parse(ts) == Err(UnexpectedToken(ts[0].value))
    ensures ts != [] && ts[0].kind == Ident && !AtValue(ts, 1, "(") ==> Parse(ts) == Err(Expected("("))
  {
    if Primary(ts, 0).Err? {
      ExpressionFails(ts, 0);
    }
  }

  /** A method's result together with the cursor it left, for comparison with a reference function. */
  function Lift<T>(r: Result<T, ParseError>, i: nat): Parsed<T> {
    match r
    case Ok(v) => Ok((v, i))
    case Err(e) => Err(e)
  }

  /** The closure state of `parseToAst`: the token list and the cursor `idx`. */
  class Parser {
    const tokens: seq<Token>
    var idx: nat

    constructor (tokens: seq<Token>)
      ensures this.tokens == tokens && idx == 0
    {
      this.tokens := tokens;
      idx := 0;
    }

    /** `match(value)`: step over the next token when its value is `v`. */
    method Match(v: string) returns (b: bool)
      requires idx <= |tokens|
      modifies this
      ensures b == AtValue(tokens, old(idx), v)
      ensures idx == if b then old(idx) + 1 else old(idx)
    {
      if idx < |tokens| && tokens[idx].value == v {
        idx := idx + 1;
        return true;
      }
      return false;
    }

    /** `expect(value)`: as `match`, but a miss throws `expected <value>`. */
    method Expect(v: string) returns (r: Result<(), ParseError>)
      requires idx <= |tokens|
      modifies this
      ensures r.Ok? == AtValue(tokens, old(idx), v)
      ensures r.Err? ==> r.error == Expected(v)
      ensures idx == if r.Ok? then old(idx) + 1 else old(idx)
    {
      var matched := Match(v);
      if !matched {
        return Err(Expected(v));
      }
      return Ok(());
    }

    method ParseExpression() returns (r: Result<Node, ParseError>)
      requires idx <= |tokens|
      modifies this
      ensures Lift(r, idx) == Expression(tokens, old(idx))
      decreases |tokens| - idx, 3
    {
      var node :- ParseTerm();
      while idx < |tokens| && tokens[idx].kind == Symbol && (tokens[idx].value == "+" || tokens[idx].value == "-")
        invariant old(idx) < idx <= |tokens|
        invariant ExpressionRest(tokens, idx, node) == Expression(tokens, old(idx))
        decreases |tokens| - idx
      {
        var op := if tokens[idx].value == "+" then Add else Sub;
        idx := idx + 1;
        var right :- ParseTerm();
        node := Binary(op, node, right);
      }
      return Ok(node);
    }

    method ParseTerm() returns (r: Result<Node, ParseError>)
      requires idx <= |tokens|
      modifies this
      ensures Lift(r, idx) == Term(tokens, old(idx))
      decreases |tokens| - idx, 2
    {
      var node :- ParseFactor();
      while idx < |tokens| && tokens[idx].kind == Symbol && (tokens[idx].value == "*" || tokens[idx].value == "/")
        invariant old(idx) < idx <= |tokens|
        invariant TermRest(tokens, idx, node) == Term(tokens, old(idx))
        decreases |tokens| - idx
      {
        var op := if tokens[idx].value == "*" then Mul else Div;
        idx := idx + 1;
        var right :- ParseFactor();
        node := Binary(op, node, right);
      }
      return Ok(node);
    }

    method ParseFactor() returns (r: Result<Node, ParseError>)
      requires idx <= |tokens|
      modifies this
      ensures Lift(r, idx) == Factor(tokens, old(idx))
      decreases |tokens| - idx, 1
    {
      var node :- ParsePrimary();
      while idx < |tokens| && tokens[idx].kind == Symbol && tokens[idx].value == "!"
        invariant old(idx) < idx <= |tokens|
        invariant Ok(FactorRest(tokens, idx, node)) == Factor(tokens, old(idx))
        decreases |tokens| - idx
      {
        idx := idx + 1;
        node := Factorial(node);
      }
      return Ok(node);
    }

    /** The argument list of a call: one expression, then one more after each comma. */
    method ParseArguments() returns (r: Result<seq<Node>, ParseError>)
      requires idx <= |tokens|
      modifies this
      ensures Lift(r, idx) == Arguments(tokens, old(idx))
      decreases |tokens| - idx, 4
    {
      var first :- ParseExpression();
      var args := [first];
      var more := Match(",");
      while more
        invariant old(idx) < idx <= |tokens|
        invariant more ==> 0 < idx && AtValue(tokens, idx - 1, ",")
        invariant !more ==> !AtValue(tokens, idx, ",")
        invariant ArgumentsRest(tokens, if more then idx - 1 else idx, args) == Arguments(tokens, old(idx))
        decreases |tokens| - idx
      {
        var next :- ParseExpression();
        args := args + [next];
        more := Match(",");
      }
      return Ok(args);
    }

    method ParsePrimary() returns (r: Result<Node, ParseError>)
      requires idx <= |tokens|
      modifies this
      ensures Lift(r, idx) == Primary(tokens, old(idx))
      decreases |tokens| - idx, 0
    {
      if idx == |tokens| {
        return Err(UnexpectedEnd);
      }
      var tok := tokens[idx];
      if tok.kind == Number {
        idx := idx + 1;
        return Ok(Num(tok.value));
      }
      if tok.kind == Ident {
        idx := idx + 1;
        var _ :- Expect("(");
        var args: seq<Node> := [];
        var closed := Match(")");
        if !closed {
          args :- ParseArguments();
          var _ :- Expect(")");
        }
        return Ok(Call(tok.value, args));
      }
      if tok.kind == Symbol && tok.value == "(" {
        idx := idx + 1;
        var node :- ParseExpression();
        var _ :- Expect(")");
        return Ok(node);
      }
      return Err(UnexpectedToken(tok.value));
    }
  }

  /** `parseToAst(tokens)`: parse one expression and reject leftover tokens. */
  method ParseToAst(tokens: seq<Token>) returns (r: Result<Node, ParseError>)
    ensures r == Parse(tokens)
  {
    var parser := new Parser(tokens);
    var ast :- parser.ParseExpression();
    if parser.idx < |tokens| {
      return Err(ExtraTokens);
    }
    return Ok(ast);
  }

  // ---------------------------------------------------------------------------
  // The parser keeps the lexer's shapes

  /** Numbers and names have the shapes the lexer gives them. */
  predicate WFNode(n: Node) {
    match n
    case Num(t) => IsNumeral(t)
    case Binary(_, l, r) => WFNode(l) && WFNode(r)
    case Factorial(a) => WFNode(a)
    case Call(name, args) => IsWord(name) && forall k :: 0 <= k < |args| ==> WFNode(args[k])
  }

  lemma {:induction false} ExpressionWF(ts: seq<Token>, i: nat)
    requires i <= |ts| && AllWellFormed(ts)
    ensures Expression(ts, i).Ok? ==> WFNode(Expression(ts, i).value.0)
    decreases |ts| - i, 3
  {
    TermWF(ts, i);
    var p := Term(ts, i);
    if p.Ok? {
      ExpressionRestWF(ts, p.value.1, p.value.0);
    }
  }

  lemma {:induction false} ExpressionRestWF(ts: seq<Token>, i: nat, left: Node)
    requires i <= |ts| && AllWellFormed(ts) && WFNode(left)
    ensures ExpressionRest(ts, i, left).Ok? ==> WFNode(ExpressionRest(ts, i, left).value.0)
    decreases |ts| - i, 3
  {
    if AtSymbol(ts, i, "+") || AtSymbol(ts, i, "-") {
      var op := if ts[i].value == "+" then Add else Sub;
      TermWF(ts, i + 1);
      var p := Term(ts, i + 1);
      if p.Ok? {
        ExpressionRestWF(ts, p.value.1, Binary(op, left, p.value.0));
      }
    }
  }

  lemma {:induction false} TermWF(ts: seq<Token>, i: nat)
    requires i <= |ts| && AllWellFormed(ts)
    ensures Term(ts, i).Ok? ==> WFNode(Term(ts, i).value.0)
    decreases |ts| - i, 2
  {
    FactorWF(ts, i);
    var p := Factor(ts, i);
    if p.Ok? {
      TermRestWF(ts, p.value.1, p.value.0);
    }
  }

  lemma {:induction false} TermRestWF(ts: seq<Token>, i: nat, left: Node)
    requires i <= |ts| && AllWellFormed(ts) && WFNode(left)
    ensures TermRest(ts, i, left).Ok? ==> WFNode(TermRest(ts, i, left).value.0)
    decreases |ts| - i, 2
  {
    if AtSymbol(ts, i, "*") || AtSymbol(ts, i, "/") {
      var op := if ts[i].value == "*" then Mul else Div;
      FactorWF(ts, i + 1);
      var p := Factor(ts, i + 1);
      if p.Ok? {
        TermRestWF(ts, p.value.1, Binary(op, left, p.value.0));
      }
    }
  }

  lemma {:induction false} FactorWF(ts: seq<Token>, i: nat)
    requires i <= |ts| && AllWellFormed(ts)
    ensures Factor(ts, i).Ok? ==> WFNode(Factor(ts, i).value.0)
    decreases |ts| - i, 1
  {
    PrimaryWF(ts, i);
    var p := Primary(ts, i);
    if p.Ok? {
      FactorRestWF(ts, p.value.1, p.value.0);
    }
  }

  lemma {:induction false} FactorRestWF(ts: seq<Token>, i: nat, node: Node)
    requires i <= |ts| && WFNode(node)
    ensures WFNode(FactorRest(ts, i, node).0)
    decreases |ts| - i
  {
    if AtSymbol(ts, i, "!") {
      FactorRestWF(ts, i + 1, Factorial(node));
    }
  }

  lemma {:induction false} PrimaryWF(ts: seq<Token>, i: nat)
    requires i <= |ts| && AllWellFormed(ts)
    ensures Primary(ts, i).Ok? ==> WFNode(Primary(ts, i).value.0)
    decreases |ts| - i, 0
  {
    if i < |ts| {
      var tok := ts[i];
      assert WellFormed(tok);
      if tok.kind == Ident && AtValue(ts, i + 1, "(") && !AtValue(ts, i + 2, ")") {
        ArgumentsWF(ts, i + 2);
      } else if tok.kind == Symbol && tok.value == "(" {
        ExpressionWF(ts, i + 1);
      }
    }
  }

  lemma {:induction false} ArgumentsWF(ts: seq<Token>, i: nat)
    requires i <= |ts| && AllWellFormed(ts)
    ensures Arguments(ts, i).Ok? ==> forall k :: 0 <= k < |Arguments(ts, i).value.0| ==> WFNode(Arguments(ts, i).value.0[k])
    decreases |ts| - i, 4
  {
    ExpressionWF(ts, i);
    var e := Expression(ts, i);
    if e.Ok? {
      ArgumentsRestWF(ts, e.value.1, [e.value.0]);
    }
  }

  lemma {:induction false} ArgumentsRestWF(ts: seq<Token>, i: nat, acc: seq<Node>)
    requires i <= |ts| && AllWellFormed(ts)
    requires forall k :: 0 <= k < |acc| ==> WFNode(acc[k])
    ensures ArgumentsRest(ts, i, acc).Ok? ==>
              forall k :: 0 <= k < |ArgumentsRest(ts, i, acc).value.0| ==> WFNode(ArgumentsRest(ts, i, acc).value.0[k])
    decreases |ts| - i, 4
  {
    if AtValue(ts, i, ",") {
      ExpressionWF(ts, i + 1);
      var e := Expression(ts, i + 1);
      if e.Ok? {
        ArgumentsRestWF(ts, e.value.1, acc + [e.value.0]);
      }
    }
  }

  /** What the parser builds from lexer output has the lexer's shapes in its leaves. */
  lemma ParseWF(ts: seq<Token>)
    requires AllWellFormed(ts)
    ensures Parse(ts).Ok? ==> WFNode(Parse(ts).value)
  {
    ExpressionWF(ts, 0);
  }
}
