/**
 * The infix lexer `tokenize` (server.js:46-94, copied verbatim at
 * app.js:36-86): a loop over a cursor that pushes `number`, `ident` and
 * `symbol` tokens and throws on a character it does not know.
 *
 * `Lex` is the reference definition (one recursive step per loop iteration);
 * `Tokenize` is the loop itself, proved equal to it. The lemmas characterise
 * `Lex` without reference to its steps: what it keeps of the input, when it
 * fails, the shape of each token, and, on blank-free input, exactly which
 * token sequences it produces.
 */
module Lexer {
  import opened Base

  datatype Kind = Number | Ident | Symbol

  datatype Token = Token(kind: Kind, value: string)

  /** The error the lexer throws on a character it does not know, naming that character. */
  datatype LexError = UnexpectedChar(ch: char)

  /** The characters emitted on their own as symbol tokens (the `-` is handled apart). */
  predicate IsPunct(c: char) {
    c == '(' || c == ')' || c == ',' || c == '!' || c == '+' || c == '*' || c == '/'
  }

  /** A character the lexer accepts in some role. */
  predicate IsLexChar(c: char) {
    IsBlank(c) || IsPunct(c) || c == '-' || IsDigit(c) || IsAlpha(c)
  }

  /**
   * The previous token lets a `-` start a negative literal: there is none, or
   * it is one of the symbols `(`, `,`, `+`, `-`, `*` and `/`. (The source
   * tests the last four by searching the operator string for the symbol's
   * value; every symbol value is one character, so that is membership.)
   */
  predicate NegativeAllowedAfter(tokens: seq<Token>) {
    tokens == [] ||
    var prev := tokens[|tokens| - 1];
    prev.kind == Symbol &&
    (prev.value == "(" || prev.value == "," || prev.value == "+" ||
     prev.value == "-" || prev.value == "*" || prev.value == "/")
  }

  /** End of the maximal run of digits starting at `j`. */
  function DigitRunEnd(s: string, j: nat): (k: nat)
    requires j <= |s|
    ensures j <= k <= |s|
    ensures forall m :: j <= m < k ==> IsDigit(s[m])
    ensures k == |s| || !IsDigit(s[k])
    decreases |s| - j
  {
    if j < |s| && IsDigit(s[j]) then DigitRunEnd(s, j + 1) else j
  }

  /** End of the maximal run of ASCII letters starting at `j`. */
  function AlphaRunEnd(s: string, j: nat): (k: nat)
    requires j <= |s|
    ensures j <= k <= |s|
    ensures forall m :: j <= m < k ==> IsAlpha(s[m])
    ensures k == |s| || !IsAlpha(s[k])
    decreases |s| - j
  {
    if j < |s| && IsAlpha(s[j]) then AlphaRunEnd(s, j + 1) else j
  }

  /** The inner loop that moves `j` past the run of digits it stands on. */
  method SkipDigits(s: string, j0: nat) returns (j: nat)
    requires j0 <= |s|
    ensures j == DigitRunEnd(s, j0)
  {
    j := j0;
    while j < |s| && IsDigit(s[j])
      invariant j0 <= j <= |s|
      invariant DigitRunEnd(s, j) == DigitRunEnd(s, j0)
    {
      j := j + 1;
    }
  }

  /** The inner loop that moves `j` past the run of letters it stands on. */
  method SkipLetters(s: string, j0: nat) returns (j: nat)
    requires j0 <= |s|
    ensures j == AlphaRunEnd(s, j0)
  {
    j := j0;
    while j < |s| && IsAlpha(s[j])
      invariant j0 <= j <= |s|
      invariant AlphaRunEnd(s, j) == AlphaRunEnd(s, j0)
    {
      j := j + 1;
    }
  }

  /**
   * The token that starts at the non-blank character `s[i]`, after the
   * tokens `acc`: a symbol, a (possibly negative) number or an identifier,
   * or the error for a character the lexer does not know.
   */
  function ReadToken(s: string, i: nat, acc: seq<Token>): (r: Result<Token, LexError>)
    requires i < |s| && !IsBlank(s[i])
    ensures r.Ok? ==> 1 <= |r.value.value| <= |s| - i
  {
    var ch := s[i];
    if IsPunct(ch) then Ok(Token(Symbol, [ch]))
    else if ch == '-' then
      if NegativeAllowedAfter(acc) && i + 1 < |s| && IsDigit(s[i + 1]) then
        Ok(Token(Number, s[i..DigitRunEnd(s, i + 1)]))
      else Ok(Token(Symbol, "-"))
    else if IsDigit(ch) then Ok(Token(Number, s[i..DigitRunEnd(s, i + 1)]))
    else if IsAlpha(ch) then Ok(Token(Ident, s[i..AlphaRunEnd(s, i + 1)]))
    else Err(UnexpectedChar(ch))
  }

  /** The lexer from cursor `i` on, having emitted `acc` so far. */
  function LexFrom(s: string, i: nat, acc: seq<Token>): Result<seq<Token>, LexError>
    requires i <= |s|
    decreases |s| - i
  {
    if i == |s| then Ok(acc)
    else if IsBlank(s[i]) then LexFrom(s, i + 1, acc)
    else
      match ReadToken(s, i, acc)
      case Err(e) => Err(e)
      case Ok(t) => LexFrom(s, i + |t.value|, acc + [t])
  }

  /** Reference definition of `tokenize`. */
  function Lex(s: string): Result<seq<Token>, LexError> {
    LexFrom(s, 0, [])
  }

  /** `tokenize(expr)` as the source writes it: one loop, a cursor, a growing token list. */
  method Tokenize(expr: string) returns (r: Result<seq<Token>, LexError>)
    ensures r == Lex(expr)
  {
    var tokens: seq<Token> := [];
    var i := 0;
    while i < |expr|
      invariant i <= |expr|
      invariant LexFrom(expr, i, tokens) == Lex(expr)
      decreases |expr| - i
    {
      var ch := expr[i];
      if IsBlank(ch) {
        i := i + 1;
        continue;
      }
      if IsPunct(ch) {
        EmitSymbol(expr, i, tokens);
        tokens := tokens + [Token(Symbol, [ch])];
        i := i + 1;
        continue;
      }
      if ch == '-' {
        if NegativeAllowedAfter(tokens) && i + 1 < |expr| && IsDigit(expr[i + 1]) {
          var j := SkipDigits(expr, i + 1);
          EmitNumber(expr, i, tokens, j);
          tokens := tokens + [Token(Number, expr[i..j])];
          i := j;
          continue;
        }
        EmitSymbol(expr, i, tokens);
        tokens := tokens + [Token(Symbol, [ch])];
        i := i + 1;
        continue;
      }
      if IsDigit(ch) {
        var j := SkipDigits(expr, i + 1);
        EmitNumber(expr, i, tokens, j);
        tokens := tokens + [Token(Number, expr[i..j])];
        i := j;
        continue;
      }
      if IsAlpha(ch) {
        var j := SkipLetters(expr, i + 1);
        EmitIdent(expr, i, tokens, j);
        tokens := tokens + [Token(Ident, expr[i..j])];
        i := j;
        continue;
      }
      return Err(UnexpectedChar(ch));
    }
    return Ok(tokens);
  }

  /** The step `Tokenize` takes at a symbol: a one-character symbol token. */
  lemma EmitSymbol(s: string, i: nat, acc: seq<Token>)
    requires i < |s|
    requires IsPunct(s[i]) || (s[i] == '-' && !(NegativeAllowedAfter(acc) && i + 1 < |s| && IsDigit(s[i + 1])))
    ensures LexFrom(s, i, acc) == LexFrom(s, i + 1, acc + [Token(Symbol, [s[i]])])
  {
    assert s[i] == '-' ==> [s[i]] == "-";
    LexStep(s, i, acc, Token(Symbol, [s[i]]));
  }

  /** The step `Tokenize` takes at a digit, or at a `-` that starts a negative literal. */
  lemma EmitNumber(s: string, i: nat, acc: seq<Token>, j: nat)
    requires i < |s| && j == DigitRunEnd(s, i + 1)
    requires IsDigit(s[i]) || (s[i] == '-' && NegativeAllowedAfter(acc) && i + 1 < |s| && IsDigit(s[i + 1]))
    ensures i < j && LexFrom(s, i, acc) == LexFrom(s, j, acc + [Token(Number, s[i..j])])
  {
    LexStep(s, i, acc, Token(Number, s[i..j]));
  }

  /** The step `Tokenize` takes at a letter. */
  lemma EmitIdent(s: string, i: nat, acc: seq<Token>, j: nat)
    requires i < |s| && j == AlphaRunEnd(s, i + 1) && IsAlpha(s[i])
    ensures i < j && LexFrom(s, i, acc) == LexFrom(s, j, acc + [Token(Ident, s[i..j])])
  {
    LexStep(s, i, acc, Token(Ident, s[i..j]));
  }

  // ---------------------------------------------------------------------------
  // What the lexer keeps of its input

  /** The token values concatenated. */
  function Join(ts: seq<Token>): string {
    if ts == [] then "" else Join(ts[..|ts| - 1]) + ts[|ts| - 1].value
  }

  /** The input without the four blank characters. */
  function RemoveBlanks(s: string): string {
    if s == [] then "" else (if IsBlank(s[0]) then "" else [s[0]]) + RemoveBlanks(s[1..])
  }

  predicate IsNumeral(v: string) {
    || (|v| >= 1 && forall k :: 0 <= k < |v| ==> IsDigit(v[k]))
    || (|v| >= 2 && v[0] == '-' && forall k :: 1 <= k < |v| ==> IsDigit(v[k]))
  }

  predicate IsWord(v: string) {
    |v| >= 1 && forall k :: 0 <= k < |v| ==> IsAlpha(v[k])
  }

  /**
   * The shape of every token the lexer emits: a number is an optional `-`
   * and one or more digits, an identifier one or more letters, a symbol one
   * of `( ) , ! + - * /`.
   */
  predicate WellFormed(t: Token) {
    match t.kind
    case Number => IsNumeral(t.value)
    case Ident => IsWord(t.value)
    case Symbol => |t.value| == 1 && (IsPunct(t.value[0]) || t.value[0] == '-')
  }

  predicate AllWellFormed(ts: seq<Token>) {
    forall k :: 0 <= k < |ts| ==> WellFormed(ts[k])
  }

  lemma {:induction false} RemoveBlanksRun(s: string, i: nat, j: nat)
    requires i <= j <= |s|
    requires forall m :: i <= m < j ==> !IsBlank(s[m])
    ensures RemoveBlanks(s[i..]) == s[i..j] + RemoveBlanks(s[j..])
    decreases j - i
  {
    if i < j {
      assert s[i..][1..] == s[i + 1..];
      RemoveBlanksRun(s, i + 1, j);
      assert s[i..j] == [s[i]] + s[i + 1..j];
    }
  }

  /** Emitting a token for `s[i..j]` moves those characters from the input to the joined tokens. */
  lemma EmitJoin(s: string, i: nat, j: nat, acc: seq<Token>, t: Token, out: string)
    requires i < j <= |s| && t.value == s[i..j]
    requires forall m :: i <= m < j ==> !IsBlank(s[m])
    requires out == Join(acc + [t]) + RemoveBlanks(s[j..])
    ensures out == Join(acc) + RemoveBlanks(s[i..])
  {
    RemoveBlanksRun(s, i, j);
    assert (acc + [t])[..|acc|] == acc;
  }

  /** At a character it knows, the lexer emits a well-formed token for the text there and moves past it. */
  lemma KnownStep(s: string, i: nat, acc: seq<Token>) returns (t: Token)
    requires i < |s| && IsLexChar(s[i]) && !IsBlank(s[i])
    ensures WellFormed(t) && i + |t.value| <= |s| && t.value == s[i..i + |t.value|]
    ensures forall m :: i <= m < i + |t.value| ==> IsLexChar(s[m]) && !IsBlank(s[m])
    ensures LexFrom(s, i, acc) == LexFrom(s, i + |t.value|, acc + [t])
  {
    ReadTokenMaximal(s, i, acc);
    t := ReadToken(s, i, acc).value;
    LexStep(s, i, acc, t);
    TokenChars(s, i, t);
  }

  /** At a character it does not know, the lexer stops with that character. */
  lemma LexStop(s: string, i: nat, acc: seq<Token>)
    requires i < |s| && !IsLexChar(s[i])
    ensures LexFrom(s, i, acc) == Err(UnexpectedChar(s[i]))
  {
    ReadTokenMaximal(s, i, acc);
  }

  /** The characters under a well-formed token are ones the lexer knows, and none is blank. */
  lemma TokenChars(s: string, i: nat, t: Token)
    requires WellFormed(t) && i + |t.value| <= |s| && s[i..i + |t.value|] == t.value
    ensures forall m :: i <= m < i + |t.value| ==> IsLexChar(s[m]) && !IsBlank(s[m])
  {
    forall m | i <= m < i + |t.value|
      ensures IsLexChar(s[m]) && !IsBlank(s[m])
    {
      assert s[m] == t.value[m - i];
    }
  }

  lemma {:induction false} LexFromJoin(s: string, i: nat, acc: seq<Token>)
    requires i <= |s|
    requires AllWellFormed(acc)
    ensures LexFrom(s, i, acc).Ok? ==>
              && Join(LexFrom(s, i, acc).value) == Join(acc) + RemoveBlanks(s[i..])
              && AllWellFormed(LexFrom(s, i, acc).value)
    decreases |s| - i
  {
    if i < |s| {
      if IsBlank(s[i]) {
        LexBlank(s, i, acc);
        assert s[i..][1..] == s[i + 1..];
        LexFromJoin(s, i + 1, acc);
      } else if IsLexChar(s[i]) {
        var t := KnownStep(s, i, acc);
        var j := i + |t.value|;
        LexFromJoin(s, j, acc + [t]);
        if LexFrom(s, j, acc + [t]).Ok? {
          EmitJoin(s, i, j, acc, t, Join(LexFrom(s, j, acc + [t]).value));
        }
      } else {
        LexStop(s, i, acc);
      }
    }
  }

  /**
   * Blanks emit nothing and every other character lands in exactly one token:
   * the token values, concatenated, are the input with its blanks removed;
   * and every token has the shape `WellFormed` describes.
   */
  lemma LexJoin(s: string)
    ensures Lex(s).Ok? ==> Join(Lex(s).value) == RemoveBlanks(s) && AllWellFormed(Lex(s).value)
  {
    LexFromJoin(s, 0, []);
  }

  /** `s[k]` is the first character from `i` on that the lexer does not know. */
  predicate FirstUnknown(s: string, i: nat, k: int) {
    i <= k < |s| && !IsLexChar(s[k]) && forall m :: i <= m < k ==> IsLexChar(s[m])
  }

  /**
   * What `LexFromFails` states about an outcome `r` of lexing from `j` carries
   * back to the equal outcome `r0` of lexing from `i`, over characters the
   * lexer knows.
   */
  lemma FailsShift(s: string, i: nat, j: nat, r0: Result<seq<Token>, LexError>, r: Result<seq<Token>, LexError>, k: int)
    requires i <= j <= |s| && forall m :: i <= m < j ==> IsLexChar(s[m])
    requires r0 == r
    requires r.Err? ==> FirstUnknown(s, j, k) && r == Err(UnexpectedChar(s[k]))
    requires r.Ok? ==> forall m :: j <= m < |s| ==> IsLexChar(s[m])
    ensures r0.Err? ==> FirstUnknown(s, i, k) && r0 == Err(UnexpectedChar(s[k]))
    ensures r0.Ok? ==> forall m :: i <= m < |s| ==> IsLexChar(s[m])
  {
  }

  lemma {:induction false} LexFromFails(s: string, i: nat, acc: seq<Token>) returns (k: int)
    requires i <= |s|
    ensures LexFrom(s, i, acc).Err? ==> FirstUnknown(s, i, k) && LexFrom(s, i, acc) == Err(UnexpectedChar(s[k]))
    ensures LexFrom(s, i, acc).Ok? ==> forall m :: i <= m < |s| ==> IsLexChar(s[m])
    decreases |s| - i
  {
    k := i;
    if i < |s| {
      if IsBlank(s[i]) {
        LexBlank(s, i, acc);
        k := LexFromFails(s, i + 1, acc);
        FailsShift(s, i, i + 1, LexFrom(s, i, acc), LexFrom(s, i + 1, acc), k);
      } else {
        if IsLexChar(s[i]) {
          var t := KnownStep(s, i, acc);
          var j := i + |t.value|;
          k := LexFromFails(s, j, acc + [t]);
          FailsShift(s, i, j, LexFrom(s, i, acc), LexFrom(s, j, acc + [t]), k);
        } else {
          LexStop(s, i, acc);
        }
      }
    }
  }

  /**
   * `tokenize` throws exactly when the input holds a character that is not a
   * blank, a symbol, a digit or an ASCII letter, and the error names the
   * first such character.
   */
  lemma LexFails(s: string)
    ensures Lex(s).Err? <==> exists k :: 0 <= k < |s| && !IsLexChar(s[k])
    ensures Lex(s).Err? ==> exists k :: FirstUnknown(s, 0, k) && s[k] == Lex(s).error.ch
  {
    var k := LexFromFails(s, 0, []);
  }

  // ---------------------------------------------------------------------------
  // Which token sequences the lexer produces

  /**
   * Token `t`, followed in the input by a token starting with `c`, would have
   * been lexed differently: a digit run or a letter run would have grown, or
   * a `-` where a negative literal may start would have taken the digit.
   */
  predicate Merges(before: seq<Token>, t: Token, c: char) {
    || (t.kind == Number && IsDigit(c))
    || (t.kind == Ident && IsAlpha(c))
    || (t == Token(Symbol, "-") && NegativeAllowedAfter(before) && IsDigit(c))
  }

  /**
   * Token `k` of `ts` is where the lexer would put it: a negative literal only
   * where a negative literal may start, and no merging with its successor.
   */
  predicate SeparatedAt(ts: seq<Token>, k: nat)
    requires k < |ts| && AllWellFormed(ts)
  {
    && (ts[k].kind == Number && ts[k].value[0] == '-' ==> NegativeAllowedAfter(ts[..k]))
    && (k + 1 < |ts| ==> !Merges(ts[..k], ts[k], ts[k + 1].value[0]))
  }

  predicate Separated(ts: seq<Token>)
    requires AllWellFormed(ts)
  {
    forall k :: 0 <= k < |ts| ==> SeparatedAt(ts, k)
  }

  predicate NoBlanks(s: string) {
    forall k :: 0 <= k < |s| ==> !IsBlank(s[k])
  }

  lemma {:induction false} JoinFront(ts: seq<Token>)
    requires ts != []
    ensures Join(ts) == ts[0].value + Join(ts[1..])
    decreases |ts|
  {
    if |ts| > 1 {
      JoinFront(ts[..|ts| - 1]);
      assert ts[..|ts| - 1][1..] == ts[1..][..|ts| - 2];
    }
  }

  lemma {:induction false} DigitRunEndAt(s: string, j: nat, k: nat)
    requires j <= k <= |s|
    requires forall m :: j <= m < k ==> IsDigit(s[m])
    requires k == |s| || !IsDigit(s[k])
    ensures DigitRunEnd(s, j) == k
    decreases k - j
  {
    if j < k {
      DigitRunEndAt(s, j + 1, k);
    }
  }

  lemma {:induction false} AlphaRunEndAt(s: string, j: nat, k: nat)
    requires j <= k <= |s|
    requires forall m :: j <= m < k ==> IsAlpha(s[m])
    requires k == |s| || !IsAlpha(s[k])
    ensures AlphaRunEnd(s, j) == k
    decreases k - j
  {
    if j < k {
      AlphaRunEndAt(s, j + 1, k);
    }
  }

  /**
   * `ReadToken` munches maximally: it fails exactly on a character the lexer
   * does not know; otherwise its token is the text at the cursor, well
   * formed, a negative literal only where one may start, and not one that the
   * next character would have extended.
   */
  lemma ReadTokenMaximal(s: string, i: nat, acc: seq<Token>)
    requires i < |s| && !IsBlank(s[i])
    ensures ReadToken(s, i, acc).Err? <==> !IsLexChar(s[i])
    ensures ReadToken(s, i, acc).Err? ==> ReadToken(s, i, acc).error == UnexpectedChar(s[i])
    ensures ReadToken(s, i, acc).Ok? ==>
              var t := ReadToken(s, i, acc).value;
              var e := i + |t.value|;
              && WellFormed(t) && s[i..e] == t.value
              && (t.kind == Number && t.value[0] == '-' ==> NegativeAllowedAfter(acc))
              && (e < |s| ==> !Merges(acc, t, s[e]))
  {
    var ch := s[i];
    if IsPunct(ch) {
      assert ReadToken(s, i, acc) == Ok(Token(Symbol, [ch]));
    } else if ch == '-' && !(NegativeAllowedAfter(acc) && i + 1 < |s| && IsDigit(s[i + 1])) {
      assert ReadToken(s, i, acc) == Ok(Token(Symbol, "-"));
    } else if IsDigit(ch) || ch == '-' {
      var j := DigitRunEnd(s, i + 1);
      var v := s[i..j];
      assert ReadToken(s, i, acc) == Ok(Token(Number, v));
      assert forall k :: 1 <= k < |v| ==> IsDigit(v[k]);
    } else if IsAlpha(ch) {
      var j := AlphaRunEnd(s, i + 1);
      var v := s[i..j];
      assert ReadToken(s, i, acc) == Ok(Token(Ident, v));
      assert forall k :: 0 <= k < |v| ==> IsAlpha(v[k]);
    }
  }

  /**
   * The converse: a well-formed token that stands at the cursor, is a
   * negative literal only where one may start and is not extended by the
   * next character is the token `ReadToken` reads there.
   */
  lemma StepToken(s: string, i: nat, acc: seq<Token>, t: Token)
    requires WellFormed(t)
    requires i + |t.value| <= |s| && s[i..i + |t.value|] == t.value
    requires t.kind == Number && t.value[0] == '-' ==> NegativeAllowedAfter(acc)
    requires i + |t.value| < |s| ==> !Merges(acc, t, s[i + |t.value|])
    ensures i < |s| && !IsBlank(s[i]) && ReadToken(s, i, acc) == Ok(t)
  {
    var v := t.value;
    var e := i + |v|;
    assert forall m :: 0 <= m < |v| ==> s[i + m] == v[m];
    match t.kind
    case Symbol =>
      assert [s[i]] == v;
    case Number =>
      DigitRunEndAt(s, i + 1, e);
      assert s[i..e] == v;
    case Ident =>
      AlphaRunEndAt(s, i + 1, e);
      assert s[i..e] == v;
  }

  /** One non-blank step of the lexer: the token read is emitted and the cursor moves past it. */
  lemma LexStep(s: string, i: nat, acc: seq<Token>, t: Token)
    requires i < |s| && !IsBlank(s[i]) && ReadToken(s, i, acc) == Ok(t)
    ensures LexFrom(s, i, acc) == LexFrom(s, i + |t.value|, acc + [t])
  {
  }

  /** The lexer skips a blank. */
  lemma LexBlank(s: string, i: nat, acc: seq<Token>)
    requires i < |s| && IsBlank(s[i])
    ensures LexFrom(s, i, acc) == LexFrom(s, i + 1, acc)
  {
  }

  lemma SplitSuffix(s: string, i: nat, x: string, y: string)
    requires i <= |s| && s[i..] == x + y
    ensures i + |x| <= |s| && s[i..i + |x|] == x && s[i + |x|..] == y
  {
    assert s[i..][..|x|] == x;
    assert s[i..][|x|..] == y;
  }

  /** Token `p` of `full` stands at the front of the text, and nothing after it merges with it. */
  lemma TokenAtFront(s: string, i: nat, full: seq<Token>, p: nat)
    requires p < |full| && i <= |s| && s[i..] == Join(full[p..])
    requires AllWellFormed(full) && SeparatedAt(full, p)
    ensures i + |full[p].value| <= |s| && s[i..i + |full[p].value|] == full[p].value
    ensures s[i + |full[p].value|..] == Join(full[p + 1..])
    ensures full[p].kind == Number && full[p].value[0] == '-' ==> NegativeAllowedAfter(full[..p])
    ensures i + |full[p].value| < |s| ==> !Merges(full[..p], full[p], s[i + |full[p].value|])
  {
    var t := full[p];
    var rest := full[p + 1..];
    assert full[p..][1..] == rest;
    JoinFront(full[p..]);
    SplitSuffix(s, i, t.value, Join(rest));
    var e := i + |t.value|;
    if e < |s| {
      JoinFront(rest);
      assert WellFormed(full[p + 1]);
      assert s[e] == full[p + 1].value[0] by {
        assert s[e..][0] == Join(rest)[0];
      }
    }
  }

  lemma EmitKnown(s: string, i: nat, acc: seq<Token>, t: Token)
    requires WellFormed(t)
    requires i + |t.value| <= |s| && s[i..i + |t.value|] == t.value
    requires t.kind == Number && t.value[0] == '-' ==> NegativeAllowedAfter(acc)
    requires i + |t.value| < |s| ==> !Merges(acc, t, s[i + |t.value|])
    ensures LexFrom(s, i, acc) == LexFrom(s, i + |t.value|, acc + [t])
  {
    StepToken(s, i, acc, t);
    LexStep(s, i, acc, t);
  }

  lemma TakeSnoc(ts: seq<Token>, p: nat)
    requires p < |ts|
    ensures ts[..p] + [ts[p]] == ts[..p + 1]
  {
  }

  lemma SameLex(s: string, i: nat, a: seq<Token>, b: seq<Token>)
    requires i <= |s| && a == b
    ensures LexFrom(s, i, a) == LexFrom(s, i, b)
  {
  }

  /** Lexing token `p` of `full` moves the cursor just past it. */
  lemma TokenStep(s: string, i: nat, full: seq<Token>, p: nat) returns (e: nat)
    requires p < |full| && i <= |s| && s[i..] == Join(full[p..])
    requires AllWellFormed(full) && SeparatedAt(full, p)
    ensures e <= |s| && s[e..] == Join(full[p + 1..])
    ensures LexFrom(s, i, full[..p]) == LexFrom(s, e, full[..p + 1])
  {
    TokenAtFront(s, i, full, p);
    EmitKnown(s, i, full[..p], full[p]);
    e := i + |full[p].value|;
    TakeSnoc(full, p);
    SameLex(s, e, full[..p] + [full[p]], full[..p + 1]);
  }

  lemma {:induction false} LexFromTokens(s: string, i: nat, full: seq<Token>, p: nat)
    requires p <= |full| && i <= |s| && s[i..] == Join(full[p..])
    requires AllWellFormed(full)
    requires forall k :: p <= k < |full| ==> SeparatedAt(full, k)
    ensures LexFrom(s, i, full[..p]) == Ok(full)
    decreases |full| - p
  {
    if p == |full| {
      assert full[..p] == full;
    } else {
      var e := TokenStep(s, i, full, p);
      LexFromTokens(s, e, full, p + 1);
    }
  }

  /** Printing separated well-formed tokens back to back and lexing the text gives them back. */
  lemma LexOfJoin(ts: seq<Token>)
    requires AllWellFormed(ts) && Separated(ts)
    ensures Lex(Join(ts)) == Ok(ts)
  {
    assert ts[0..] == ts;
    LexFromTokens(Join(ts), 0, ts, 0);
    assert ts[..0] == [];
  }

  /** Appending a token keeps the sequence separated when it fits after the last one. */
  lemma SeparatedSnoc(acc: seq<Token>, t: Token)
    requires AllWellFormed(acc) && Separated(acc) && WellFormed(t)
    requires t.kind == Number && t.value[0] == '-' ==> NegativeAllowedAfter(acc)
    requires acc != [] ==> !Merges(acc[..|acc| - 1], acc[|acc| - 1], t.value[0])
    ensures AllWellFormed(acc + [t]) && Separated(acc + [t])
  {
    var acc' := acc + [t];
    assert AllWellFormed(acc');
    forall k | 0 <= k < |acc'|
      ensures SeparatedAt(acc', k)
    {
      assert acc'[..k] == if k < |acc| then acc[..k] else acc;
      if k < |acc| {
        assert SeparatedAt(acc, k);
        if k + 1 < |acc| {
          assert acc'[k + 1] == acc[k + 1];
        } else {
          assert acc'[k + 1] == t;
        }
      }
    }
  }

  /** The test a `-` makes depends only on the token before it. */
  lemma NegativeAllowedSameLast(x: seq<Token>, y: seq<Token>)
    requires x != [] && y != [] && x[|x| - 1] == y[|y| - 1]
    ensures NegativeAllowedAfter(x) == NegativeAllowedAfter(y)
  {
  }

  /**
   * Two separated sequences stay separated back to back when the seam is
   * sound: the last token of `a` does not merge with the first of `b`, and a
   * negative literal opening `b` may start after `a`.
   */
  lemma SeparatedConcat(a: seq<Token>, b: seq<Token>)
    requires AllWellFormed(a) && Separated(a) && AllWellFormed(b) && Separated(b)
    requires a != [] && b != [] ==> !Merges(a[..|a| - 1], a[|a| - 1], b[0].value[0])
    requires b != [] && b[0].kind == Number && b[0].value[0] == '-' ==> NegativeAllowedAfter(a)
    ensures AllWellFormed(a + b) && Separated(a + b)
  {
    var ab := a + b;
    assert AllWellFormed(ab);
    forall k | 0 <= k < |ab|
      ensures SeparatedAt(ab, k)
    {
      if k < |a| {
        assert ab[..k] == a[..k];
        assert SeparatedAt(a, k);
        if k + 1 < |a| {
          assert ab[k + 1] == a[k + 1];
        }
      } else {
        var j := k - |a|;
        assert ab[..k] == a + b[..j];
        assert SeparatedAt(b, j);
        if j + 1 < |b| {
          assert ab[k + 1] == b[j + 1];
        }
        if j > 0 {
          NegativeAllowedSameLast(a + b[..j], b[..j]);
        } else {
          assert b[..j] == [];
        }
      }
    }
  }

  lemma {:induction false} LexFromSeparated(s: string, i: nat, acc: seq<Token>)
    requires i <= |s| && NoBlanks(s)
    requires AllWellFormed(acc) && Separated(acc)
    requires acc != [] && i < |s| ==> !Merges(acc[..|acc| - 1], acc[|acc| - 1], s[i])
    ensures LexFrom(s, i, acc).Ok? ==>
              AllWellFormed(LexFrom(s, i, acc).value) && Separated(LexFrom(s, i, acc).value)
    decreases |s| - i
  {
    if i < |s| && IsLexChar(s[i]) {
      assert !IsBlank(s[i]);
      ReadTokenMaximal(s, i, acc);
      var t := ReadToken(s, i, acc).value;
      LexStep(s, i, acc, t);
      assert t.value[0] == s[i];
      SeparatedSnoc(acc, t);
      assert (acc + [t])[..|acc|] == acc;
      LexFromSeparated(s, i + |t.value|, acc + [t]);
    }
  }

  /**
   * On input without blanks, the lexer's result is characterised exactly:
   * `Lex(s)` is `ts` if and only if the well-formed tokens `ts`, printed back
   * to back, are `s` and no two neighbours would have been lexed as one. In
   * particular a `-` becomes part of a number exactly when a digit follows it
   * and it comes first or after `(`, `,`, `+`, `-`, `*` or `/`; and number
   * and identifier tokens are maximal runs.
   */
  lemma LexBlankFree(s: string, ts: seq<Token>)
    requires NoBlanks(s)
    ensures Lex(s) == Ok(ts) <==> AllWellFormed(ts) && Separated(ts) && Join(ts) == s
  {
    if Lex(s) == Ok(ts) {
      LexJoin(s);
      RemoveBlanksNone(s);
      LexFromSeparated(s, 0, []);
    }
    if AllWellFormed(ts) && Separated(ts) && Join(ts) == s {
      LexOfJoin(ts);
    }
  }

  lemma {:induction false} RemoveBlanksNone(s: string)
    requires NoBlanks(s)
    ensures RemoveBlanks(s) == s
  {
    if s != [] {
      RemoveBlanksNone(s[1..]);
    }
  }
}
