/**
 * The LaTeX renderer `toLatex` (server.js:176-224, copied at app.js:168-216)
 * and its wrapper `infixToLatex` (server.js:226-235), which falls back to an
 * escaped `\text{...}` when the expression does not lex or parse.
 *
 * `Render` takes a `Style`: `AsWritten` is the source's rule, under which the
 * operands of `+` and `-` are never parenthesised, so `a - (b + c)` is shown
 * as `a - b + c`; `Corrected` parenthesises the right operand of `-` when it
 * is itself a sum or difference. `infixToLatex`, and with it the scraping
 * and the web handler, render as written; the corrected rule is stated and
 * proved apart, as the intended behaviour.
 */
module Latex {
  import opened Base
  import opened Lexer
  import opened Parser

  /** `prec` inside `toLatex`: calls rank with factorials, below numbers. */
  function Prec(n: Node): (p: nat)
    ensures 1 <= p <= 4
    ensures p < 2 <==> IsSum(n)
    ensures p < 3 <==> n.Binary?
  {
    match n
    case Binary(op, _, _) => if op == Add || op == Sub then 1 else 2
    case Factorial(_) => 3
    case Call(_, _) => 3
    case Num(_) => 4
  }

  /** A `+` or `-` node. */
  predicate IsSum(n: Node) {
    n.Binary? && (n.op == Add || n.op == Sub)
  }

  datatype Style = AsWritten | Corrected

  /** `\left(...\right)` */
  function Paren(s: string): string {
    "\\left(" + s + "\\right)"
  }

  /**
   * The `minPrec` for the right operand of `+` and `-`: 1 in the source,
   * 2 for a `-` in the corrected rendering.
   */
  function RightMin(op: BinOp, style: Style): nat {
    if style == Corrected && op == Sub then 2 else 1
  }

  function Render(n: Node, style: Style): string
    decreases n, 0
  {
    match n
    case Num(t) => t
    case Binary(op, l, r) =>
      if op == Div then "\\frac{" + Render(l, style) + "}{" + Render(r, style) + "}"
      else if op == Mul then WrapIf(l, 2, style) + " \\cdot " + WrapIf(r, 2, style)
      else WrapIf(l, 1, style) + " " + OpSymbol(op) + " " + WrapIf(r, RightMin(op, style), style)
    case Factorial(a) =>
      var inner := Render(a, style);
      (if a.Factorial? || Prec(a) < 3 then Paren(inner) else inner) + "!"
    case Call(name, args) =>
      var arg := if |args| > 0 then Render(args[0], style) else "";
      if name == "sqrt" then "\\sqrt{" + arg + "}"
      else if name == "lg" then "\\lg" + Paren(arg)
      else if name == "lb" then "\\mathrm{lb}" + Paren(arg)
      else if name == "log" && |args| >= 2 then
        "\\log_{" + Render(args[0], style) + "}" + Paren(Render(args[1], style))
      else "\\operatorname{" + name + "}" + Paren(arg)
  }

  /** `wrapIf(child, minPrec)`: parenthesise a child that binds more loosely than `minPrec`. */
  function WrapIf(child: Node, minPrec: nat, style: Style): string
    decreases child, 1
  {
    var latex := Render(child, style);
    if Prec(child) < minPrec then Paren(latex) else latex
  }

  /** `toLatex` as the source writes it; `infixToLatex` and everything after it use this. */
  function ToLatex(n: Node): string {
    Render(n, AsWritten)
  }

  /** `toLatex` with the right operand of `-` grouped: the rendering the source evidently intends. */
  function ToLatexCorrected(n: Node): string {
    Render(n, Corrected)
  }

  /** The operand of a product or factorial as rendered: parenthesised when it is a sum. */
  function Grouped(n: Node, style: Style): string {
    if IsSum(n) then Paren(Render(n, style)) else Render(n, style)
  }

  // ---------------------------------------------------------------------------
  // Where the renderer puts parentheses

  /**
   * In the source, the operands of `+` and `-` are never parenthesised:
   * `wrapIf(child, 1)` compares with a precedence that is never below 1.
   */
  lemma SumOperandsNeverWrapped(op: BinOp, l: Node, r: Node)
    requires op == Add || op == Sub
    ensures ToLatex(Binary(op, l, r)) ==
            ToLatex(l) + " " + OpSymbol(op) + " " + ToLatex(r)
  {
    assert WrapIf(l, 1, AsWritten) == ToLatex(l);
    assert WrapIf(r, 1, AsWritten) == ToLatex(r);
  }

  /**
   * In the source, a difference whose right operand is a sum or difference
   * renders exactly like the left-nested tree with the other grouping:
   * `a - (b + c)` and `(a - b) + c` are both shown as `a - b + c`, and
   * `a - (b - c)` and `(a - b) - c` as `a - b - c`.
   */
  lemma SubtractionLosesGrouping(a: Node, b: Node, c: Node, op: BinOp)
    requires op == Add || op == Sub
    ensures ToLatex(Binary(Sub, a, Binary(op, b, c))) ==
            ToLatex(Binary(op, Binary(Sub, a, b), c))
  {
    SumOperandsNeverWrapped(Sub, a, Binary(op, b, c));
    SumOperandsNeverWrapped(op, b, c);
    SumOperandsNeverWrapped(op, Binary(Sub, a, b), c);
    SumOperandsNeverWrapped(Sub, a, b);
    Reassociate(ToLatex(a), ToLatex(b), OpSymbol(op), ToLatex(c));
  }

  lemma Reassociate(x: string, y: string, o: string, z: string)
    ensures x + " " + OpSymbol(Sub) + " " + (y + " " + o + " " + z) ==
            x + " " + OpSymbol(Sub) + " " + y + " " + o + " " + z
  {
  }

  /** One concrete case: `1 - (2 + 3)` (value -4) and `(1 - 2) + 3` (value 2) both give `1 - 2 + 3`. */
  lemma SubtractionLosesGroupingExample()
    ensures ToLatex(Binary(Sub, Num("1"), Binary(Add, Num("2"), Num("3")))) == "1 - 2 + 3"
    ensures ToLatex(Binary(Add, Binary(Sub, Num("1"), Num("2")), Num("3"))) == "1 - 2 + 3"
  {
    SubtractionLosesGrouping(Num("1"), Num("2"), Num("3"), Add);
  }

  /**
   * The corrected rendering of a difference parenthesises its right operand
   * exactly when that operand is a sum or difference; its left operand, and
   * both operands of a sum, are left as they are.
   */
  lemma SubtractionKeepsGrouping(op: BinOp, l: Node, r: Node)
    requires op == Add || op == Sub
    ensures ToLatexCorrected(Binary(op, l, r)) ==
            ToLatexCorrected(l) + " " + OpSymbol(op) + " " + (if op == Sub then Grouped(r, Corrected) else ToLatexCorrected(r))
  {
    assert WrapIf(l, 1, Corrected) == ToLatexCorrected(l);
    assert WrapIf(r, RightMin(op, Corrected), Corrected) == if op == Sub then Grouped(r, Corrected) else ToLatexCorrected(r);
  }

  /**
   * With the correction, the two groupings that the source confuses render
   * differently, for all operands.
   */
  lemma SubtractionGroupingDistinct(a: Node, b: Node, c: Node, op: BinOp)
    requires op == Add || op == Sub
    ensures ToLatexCorrected(Binary(Sub, a, Binary(op, b, c))) != ToLatexCorrected(Binary(op, Binary(Sub, a, b), c))
  {
    var opText := " " + OpSymbol(op) + " ";
    var rc := if op == Sub then Grouped(c, Corrected) else ToLatexCorrected(c);
    RightGroupedShape(a, b, c, op);
    LeftNestedShape(a, b, c, op);
    if IsSum(b) {
      RegroupedDiffers(ToLatexCorrected(a) + " - ", ToLatexCorrected(b), opText, rc);
    } else {
      UngroupedDiffers(ToLatexCorrected(a) + " - ", ToLatexCorrected(b), opText, rc);
    }
  }

  lemma RightGroupedShape(a: Node, b: Node, c: Node, op: BinOp)
    requires op == Add || op == Sub
    ensures ToLatexCorrected(Binary(Sub, a, Binary(op, b, c))) ==
            (ToLatexCorrected(a) + " - ") +
            Paren(ToLatexCorrected(b) + (" " + OpSymbol(op) + " ") + (if op == Sub then Grouped(c, Corrected) else ToLatexCorrected(c)))
  {
    var x := Binary(op, b, c);
    SubtractionKeepsGrouping(Sub, a, x);
    assert Grouped(x, Corrected) == Paren(ToLatexCorrected(x));
    SubtractionKeepsGrouping(op, b, c);
    RightRegroup(ToLatexCorrected(a), ToLatexCorrected(b), OpSymbol(op), if op == Sub then Grouped(c, Corrected) else ToLatexCorrected(c));
  }

  lemma RightRegroup(x: string, y: string, o: string, z: string)
    ensures x + " " + OpSymbol(Sub) + " " + Paren(y + " " + o + " " + z) == (x + " - ") + Paren(y + (" " + o + " ") + z)
  {
    assert y + " " + o + " " + z == y + (" " + o + " ") + z;
  }

  lemma LeftNestedShape(a: Node, b: Node, c: Node, op: BinOp)
    requires op == Add || op == Sub
    ensures ToLatexCorrected(Binary(op, Binary(Sub, a, b), c)) ==
            ((ToLatexCorrected(a) + " - ") + Grouped(b, Corrected)) + (" " + OpSymbol(op) + " ") +
            (if op == Sub then Grouped(c, Corrected) else ToLatexCorrected(c))
  {
    SubtractionKeepsGrouping(op, Binary(Sub, a, b), c);
    SubtractionKeepsGrouping(Sub, a, b);
    LeftRegroup(ToLatexCorrected(a), Grouped(b, Corrected), OpSymbol(op), if op == Sub then Grouped(c, Corrected) else ToLatexCorrected(c));
  }

  lemma LeftRegroup(x: string, g: string, o: string, z: string)
    ensures x + " " + OpSymbol(Sub) + " " + g + " " + o + " " + z == ((x + " - ") + g) + (" " + o + " ") + z
  {
    assert x + " " + OpSymbol(Sub) + " " + g == (x + " - ") + g;
  }

  lemma RegroupedDiffers(pre: string, x: string, mid: string, y: string)
    requires |mid| >= 1 && mid[0] == ' '
    ensures pre + Paren(x + mid + y) != (pre + Paren(x)) + mid + y
  {
    var p := pre + "\\left(" + x;
    assert pre + Paren(x + mid + y) == p + (mid + y + "\\right)");
    assert (pre + Paren(x)) + mid + y == p + ("\\right)" + mid + y);
    assert (p + (mid + y + "\\right)"))[|p|] == ' ';
    assert (p + ("\\right)" + mid + y))[|p|] == '\\';
  }

  lemma UngroupedDiffers(pre: string, x: string, mid: string, y: string)
    ensures pre + Paren(x + mid + y) != (pre + x) + mid + y
  {
    assert |pre + Paren(x + mid + y)| == |(pre + x) + mid + y| + 13;
  }

  /** Products parenthesise exactly their `+`/`-` operands. */
  lemma ProductGroupsSums(l: Node, r: Node, style: Style)
    ensures Render(Binary(Mul, l, r), style) == Grouped(l, style) + " \\cdot " + Grouped(r, style)
  {
  }

  /** Quotients become `\frac`, whose braces group both operands. */
  lemma QuotientIsFraction(l: Node, r: Node, style: Style)
    ensures Render(Binary(Div, l, r), style) == "\\frac{" + Render(l, style) + "}{" + Render(r, style) + "}"
  {
  }

  /** A factorial parenthesises its operand exactly when that is an operator node or another factorial. */
  lemma FactorialGroupsOperators(a: Node, style: Style)
    ensures Render(Factorial(a), style) ==
            (if a.Binary? || a.Factorial? then Paren(Render(a, style)) else Render(a, style)) + "!"
  {
  }

  /**
   * A call renders only its first argument (`log` with two or more: the first
   * two); later arguments do not appear.
   */
  lemma CallUsesLeadingArguments(name: string, args: seq<Node>, extra: seq<Node>, style: Style)
    requires |args| >= 2
    ensures Render(Call(name, args + extra), style) == Render(Call(name, args), style)
  {
    assert (args + extra)[0] == args[0] && (args + extra)[1] == args[1];
  }

  /**
   * Apart from `log` with two or more arguments, a call shows its first
   * argument only; with no argument at all it renders as if that argument
   * were the empty text.
   */
  lemma CallRendersFirstArgument(name: string, args: seq<Node>, style: Style)
    requires !(name == "log" && |args| >= 2)
    ensures |args| >= 1 ==> Render(Call(name, args), style) == Render(Call(name, args[..1]), style)
    ensures args == [] ==> Render(Call(name, args), style) == Render(Call(name, [Num("")]), style)
  {
    if |args| >= 1 {
      assert args[..1][0] == args[0];
    }
  }

  // ---------------------------------------------------------------------------
  // The fallback of `infixToLatex`

  /** Every occurrence of the character `c` in `s` replaced by `rep`. */
  function ReplaceAll(s: string, c: char, rep: string): string {
    if s == [] then "" else (if s[0] == c then rep else [s[0]]) + ReplaceAll(s[1..], c, rep)
  }

  /** The three `replace` calls of the fallback, in the source's order. */
  function Escape(s: string): string {
    ReplaceAll(ReplaceAll(ReplaceAll(s, '\\', "\\\\"), '{', "\\{"), '}', "\\}")
  }

  /** The escape of one character. */
  function EscapeChar(ch: char): string {
    if ch == '\\' then "\\\\" else if ch == '{' then "\\{" else if ch == '}' then "\\}" else [ch]
  }

  /** Undo `Escape`; `None` on a lone backslash or an unescaped brace. */
  function Unescape(t: string): Option<string> {
    if t == [] then Some("")
    else if t[0] == '\\' then
      if |t| >= 2 && (t[1] == '\\' || t[1] == '{' || t[1] == '}') then
        match Unescape(t[2..])
        case None => None
        case Some(rest) => Some([t[1]] + rest)
      else None
    else if t[0] == '{' || t[0] == '}' then None
    else
      match Unescape(t[1..])
      case None => None
      case Some(rest) => Some([t[0]] + rest)
  }

  lemma {:induction false} ReplaceAllAppend(a: string, b: string, c: char, rep: string)
    ensures ReplaceAll(a + b, c, rep) == ReplaceAll(a, c, rep) + ReplaceAll(b, c, rep)
  {
    if a != [] {
      assert (a + b)[0] == a[0];
      assert (a + b)[1..] == a[1..] + b;
      ReplaceAllAppend(a[1..], b, c, rep);
      var u := if a[0] == c then rep else [a[0]];
      calc {
        ReplaceAll(a + b, c, rep);
        u + ReplaceAll(a[1..] + b, c, rep);
        u + (ReplaceAll(a[1..], c, rep) + ReplaceAll(b, c, rep));
        (u + ReplaceAll(a[1..], c, rep)) + ReplaceAll(b, c, rep);
      }
    } else {
      assert a + b == b;
    }
  }

  /** The three passes amount to escaping each character on its own. */
  lemma {:induction false} EscapeEachChar(s: string)
    requires s != []
    ensures Escape(s) == EscapeChar(s[0]) + Escape(s[1..])
  {
    var rest := s[1..];
    var r1 := ReplaceAll(rest, '\\', "\\\\");
    var u1 := if s[0] == '\\' then "\\\\" else [s[0]];
    assert ReplaceAll(s, '\\', "\\\\") == u1 + r1;
    ReplaceAllAppend(u1, r1, '{', "\\{");
    var r2 := ReplaceAll(r1, '{', "\\{");
    var u2 := ReplaceAll(u1, '{', "\\{");
    ReplaceAllAppend(u2, r2, '}', "\\}");
    if s[0] == '\\' {
      assert u2 == "\\\\" by { assert u1 == ['\\'] + ['\\']; ReplaceAllAppend(['\\'], ['\\'], '{', "\\{"); }
      assert ReplaceAll(u2, '}', "\\}") == "\\\\" by { ReplaceAllAppend(['\\'], ['\\'], '}', "\\}"); }
    } else if s[0] == '{' {
      assert ReplaceAll(u2, '}', "\\}") == "\\{" by { ReplaceAllAppend(['\\'], ['{'], '}', "\\}"); }
    }
  }

  /** Unescaping the fallback's escape gives the expression back. */
  lemma {:induction false} UnescapeEscape(s: string)
    ensures Unescape(Escape(s)) == Some(s)
  {
    if s == [] {
    } else {
      EscapeEachChar(s);
      UnescapeEscape(s[1..]);
      var e := EscapeChar(s[0]);
      assert (e + Escape(s[1..]))[|e|..] == Escape(s[1..]);
      assert s == [s[0]] + s[1..];
    }
  }

  /** Every text `Unescape` accepts is the escape of what it returns: the escape is onto its image. */
  lemma {:induction false} EscapeUnescape(t: string, s: string)
    requires Unescape(t) == Some(s)
    ensures Escape(s) == t
  {
    if t != [] {
      var k := if t[0] == '\\' then 2 else 1;
      var rest := Unescape(t[k..]).value;
      EscapeUnescape(t[k..], rest);
      assert s == [t[k - 1]] + rest;
      EscapeEachChar(s);
      assert s[1..] == rest;
      assert t == t[..k] + t[k..];
    }
  }

  /** `\text{...}` with the expression escaped. */
  function Fallback(expr: string): string {
    "\\text{" + Escape(expr) + "}"
  }

  /** Reference definition of `infixToLatex`. */
  function InfixToLatex(expr: string): string {
    match Lex(expr)
    case Err(_) => Fallback(expr)
    case Ok(ts) =>
      match Parse(ts)
      case Err(_) => Fallback(expr)
      case Ok(n) => ToLatex(n)
  }

  /** `infixToLatex(expr)`: lex, parse and render; on a thrown error, the fallback. */
  method RenderInfixToLatex(expr: string) returns (r: string)
    ensures r == InfixToLatex(expr)
  {
    var tokens := Tokenize(expr);
    if tokens.Err? {
      return Fallback(expr);
    }
    var ast := ParseToAst(tokens.value);
    if ast.Err? {
      return Fallback(expr);
    }
    return ToLatex(ast.value);
  }

  /** Does not begin with `\t`: the start of every rendering, and never the start of the fallback. */
  predicate NotTextStart(s: string) {
    |s| >= 1 && (s[0] != '\\' || (|s| >= 2 && s[1] != 't'))
  }

  lemma NotTextStartNotFallback(s: string)
    requires NotTextStart(s)
    ensures !StartsWith(s, "\\text{")
  {
    if |s| >= 6 {
      assert s[..6][0] == s[0] && s[..6][1] == s[1];
    }
  }

  lemma {:induction false} RenderStart(n: Node, style: Style)
    requires WFNode(n)
    ensures NotTextStart(Render(n, style))
    decreases n
  {
    match n
    case Num(t) =>
      assert t[0] == '-' || IsDigit(t[0]);
    case Binary(op, l, r) =>
      RenderStart(l, style);
      BinaryStart(op, l, r, style);
    case Factorial(a) =>
      RenderStart(a, style);
      FactorialStart(a, style);
    case Call(name, args) =>
      CallStart(name, args, style);
  }

  /** A text that starts like `x` still does once something is appended. */
  lemma StartKept(x: string, y: string)
    requires NotTextStart(x)
    ensures NotTextStart(x + y)
  {
    assert (x + y)[0] == x[0];
    if |x| >= 2 {
      assert (x + y)[1] == x[1];
    }
  }

  lemma WrapStart(child: Node, minPrec: nat, style: Style)
    requires NotTextStart(Render(child, style))
    ensures NotTextStart(WrapIf(child, minPrec, style))
  {
    StartKept("\\left(", Render(child, style) + "\\right)");
    assert Paren(Render(child, style)) == "\\left(" + (Render(child, style) + "\\right)");
  }

  lemma BinaryStart(op: BinOp, l: Node, r: Node, style: Style)
    requires NotTextStart(Render(l, style))
    ensures NotTextStart(Render(Binary(op, l, r), style))
  {
    if op == Div {
      var x := "\\frac{" + Render(l, style);
      StartKept("\\frac{", Render(l, style));
      StartKept(x, "}{");
      StartKept(x + "}{", Render(r, style));
      StartKept(x + "}{" + Render(r, style), "}");
    } else if op == Mul {
      var x := WrapIf(l, 2, style);
      WrapStart(l, 2, style);
      StartKept(x, " \\cdot ");
      StartKept(x + " \\cdot ", WrapIf(r, 2, style));
    } else {
      var x := WrapIf(l, 1, style);
      WrapStart(l, 1, style);
      StartKept(x, " ");
      StartKept(x + " ", OpSymbol(op));
      StartKept(x + " " + OpSymbol(op), " ");
      StartKept(x + " " + OpSymbol(op) + " ", WrapIf(r, RightMin(op, style), style));
    }
  }

  lemma FactorialStart(a: Node, style: Style)
    requires NotTextStart(Render(a, style))
    ensures NotTextStart(Render(Factorial(a), style))
  {
    var inner := Render(a, style);
    StartKept("\\left(", inner + "\\right)");
    assert Paren(inner) == "\\left(" + (inner + "\\right)");
    var x := if a.Factorial? || Prec(a) < 3 then Paren(inner) else inner;
    StartKept(x, "!");
  }

  lemma CallStart(name: string, args: seq<Node>, style: Style)
    ensures NotTextStart(Render(Call(name, args), style))
  {
    var r := Render(Call(name, args), style);
    assert |r| >= 2 && r[0] == '\\' && r[1] != 't';
  }

  /**
   * `infixToLatex` falls back to `\text{...}` exactly when the expression
   * does not lex or does not parse: no rendering of a parsed expression
   * begins like the fallback.
   */
  lemma FallbackIff(expr: string)
    ensures StartsWith(InfixToLatex(expr), "\\text{") <==>
            (Lex(expr).Err? || Parse(Lex(expr).value).Err?)
  {
    var r := InfixToLatex(expr);
    if Lex(expr).Ok? && Parse(Lex(expr).value).Ok? {
      LexJoin(expr);
      ParseWF(Lex(expr).value);
      RenderStart(Parse(Lex(expr).value).value, AsWritten);
      NotTextStartNotFallback(r);
    } else {
      assert r == "\\text{" + Escape(expr) + "}";
      assert r[..6] == "\\text{";
    }
  }
}
