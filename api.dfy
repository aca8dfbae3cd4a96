/**
 * The web layer around the solver: the browser's `parseNumbers`
 * (app.js:13-20), which turns the input box into integers, and the request
 * validation of the server's `/api/solve` handler (server.js:303-335):
 * `isSafeNumber`, the count check, the limit clamp, and what the handler
 * answers in each case.
 *
 * The solver itself is not part of this model. The handler reaches it by
 * writing a line to a child process and reading its standard output; here
 * it is a function parameter from that line to the output or to the error
 * the process reports.
 */
module Api {
  import opened Base
  import opened Scrape

  // ---------------------------------------------------------------------
  // Decimal integers
  // ---------------------------------------------------------------------

  /** The digit character for `d`. */
  function DigitChar(d: nat): (c: char)
    requires d < 10
    ensures IsDigit(c)
  {
    (48 + d) as char
  }

  predicate AllDigits(s: string) {
    forall k :: 0 <= k < |s| ==> IsDigit(s[k])
  }

  /** The value of a string of decimal digits, most significant first. */
  function DigitsValue(s: string): nat
    requires AllDigits(s)
  {
    if s == [] then 0
    else DigitsValue(s[..|s| - 1]) * 10 + ((s[|s| - 1] as int) - 48)
  }

  /** The decimal digits of `n`, without leading zeros; they read back as `n`. */
  function ShowNat(n: nat): (s: string)
    ensures |s| >= 1 && AllDigits(s)
    ensures DigitsValue(s) == n
  {
    if n < 10 then [DigitChar(n)]
    else
      var s := ShowNat(n / 10) + [DigitChar(n % 10)];
      assert s[..|s| - 1] == ShowNat(n / 10);
      s
  }

  /** `String(n)` for an integer: its digits, after a `-` when it is negative. */
  function ShowInt(n: int): (s: string)
    ensures |s| >= 1 && forall k :: 0 <= k < |s| ==> s[k] == '-' || IsDigit(s[k])
  {
    if n < 0 then "-" + ShowNat(-n) else ShowNat(n)
  }

  /**
   * `Number(part)` when its result is an integer: an optional sign followed
   * by one or more decimal digits. `None` stands for every part that
   * `Number.isInteger` rejects.
   */
  function ParseInt(w: string): (r: Option<int>)
    ensures r.Some? ==> |w| >= 1
  {
    if |w| >= 2 && w[0] == '-' && AllDigits(w[1..]) then Some(0 - DigitsValue(w[1..]) as int)
    else if |w| >= 2 && w[0] == '+' && AllDigits(w[1..]) then Some(DigitsValue(w[1..]))
    else if |w| >= 1 && AllDigits(w) then Some(DigitsValue(w))
    else None
  }

  /** Printing an integer and converting the text back gives the integer. */
  lemma ParseShowInt(n: int)
    ensures ParseInt(ShowInt(n)) == Some(n)
  {
    if n < 0 {
      assert ShowInt(n)[1..] == ShowNat(-n);
    }
  }

  // ---------------------------------------------------------------------
  // parseNumbers
  // ---------------------------------------------------------------------

  /** A character of the regular-expression class `[\s,]`. */
  predicate IsSeparator(c: char) { IsSpace(c) || c == ',' }

  predicate NoSeparator(s: string) {
    forall k :: 0 <= k < |s| ==> !IsSeparator(s[k])
  }

  /** Length of the run of separators at the front of `s`. */
  function LeadSeparators(s: string): (n: nat)
    ensures n <= |s|
    ensures forall k :: 0 <= k < n ==> IsSeparator(s[k])
    ensures n < |s| ==> !IsSeparator(s[n])
  {
    if s != [] && IsSeparator(s[0]) then 1 + LeadSeparators(s[1..]) else 0
  }

  /** Length of the run of non-separators at the front of `s`. */
  function WordLength(s: string): (n: nat)
    ensures n <= |s|
    ensures NoSeparator(s[..n])
    ensures n < |s| ==> IsSeparator(s[n])
  {
    if s != [] && !IsSeparator(s[0]) then
      var m := WordLength(s[1..]);
      assert s[..m + 1] == [s[0]] + s[1..][..m];
      m + 1
    else 0
  }

  /**
   * `s.split(/[\s,]+/)`: the pieces between maximal runs of separators; a run
   * at either end leaves an empty piece there, and the empty text is one
   * empty piece.
   */
  function SplitSeparators(s: string): (pieces: seq<string>)
    ensures |pieces| >= 1
    ensures forall k :: 0 <= k < |pieces| ==> NoSeparator(pieces[k])
    decreases |s|
  {
    if s == [] then [""]
    else if IsSeparator(s[0]) then [""] + SplitSeparators(s[LeadSeparators(s)..])
    else
      var rest := SplitSeparators(s[1..]);
      [[s[0]] + rest[0]] + rest[1..]
  }

  /** The parts that convert to integers, converted, in order; the others are dropped. */
  function Integers(parts: seq<string>): (ns: seq<int>)
    ensures |ns| <= |parts|
  {
    if parts == [] then []
    else
      var rest := Integers(parts[1..]);
      match ParseInt(parts[0])
      case Some(n) => [n] + rest
      case None => rest
  }

  /** `parseNumbers(value)`: split, trim, drop empty parts, convert, keep the integers. */
  function ParseNumbers(value: string): seq<int> {
    Integers(NonEmpty(Map(Trim, SplitSeparators(value))))
  }

  /** The words of `s`: the non-empty pieces between separators. */
  function Words(s: string): seq<string> {
    NonEmpty(SplitSeparators(s))
  }

  /** The numbers written out with single spaces between them. */
  function JoinInts(ns: seq<int>): string {
    if ns == [] then ""
    else if |ns| == 1 then ShowInt(ns[0])
    else ShowInt(ns[0]) + " " + JoinInts(ns[1..])
  }

  /** The pieces of the split contain no separator, so `trim` leaves each alone. */
  lemma TrimPieces(s: string)
    ensures Map(Trim, SplitSeparators(s)) == SplitSeparators(s)
  {
    var ps := SplitSeparators(s);
    forall k | 0 <= k < |ps|
      ensures Trim(ps[k]) == ps[k]
    {
      assert NoSeparator(ps[k]);
      TrimTrimmed(ps[k]);
    }
  }

  /**
   * What `parseNumbers` returns: every word of the input that converts to an
   * integer, in order; the `trim` step changes nothing.
   */
  lemma ParseNumbersWords(value: string)
    ensures ParseNumbers(value) == Integers(Words(value))
    ensures forall k :: 0 <= k < |Words(value)| ==> Words(value)[k] != "" && NoSeparator(Words(value)[k])
  {
    TrimPieces(value);
    var ps := SplitSeparators(value);
    forall k | 0 <= k < |Words(value)|
      ensures Words(value)[k] != "" && NoSeparator(Words(value)[k])
    {
      var w := Words(value)[k];
      assert w in ps;
      var j :| 0 <= j < |ps| && ps[j] == w;
    }
  }

  /** A word without separators is glued to the first piece of what follows it. */
  lemma {:induction false} SplitAfterWord(w: string, x: string)
    requires NoSeparator(w)
    ensures SplitSeparators(w + x) == [w + SplitSeparators(x)[0]] + SplitSeparators(x)[1..]
    decreases |w|
  {
    if w != [] {
      assert (w + x)[1..] == w[1..] + x;
      SplitAfterWord(w[1..], x);
      assert [w[0]] + (w[1..] + SplitSeparators(x)[0]) == w + SplitSeparators(x)[0];
    } else {
      assert w + x == x;
      var px := SplitSeparators(x);
      assert px == [px[0]] + px[1..];
      assert w + px[0] == px[0];
    }
  }

  /** Separators at the front produce no word. */
  lemma WordsAfterSeparator(s: string)
    requires s != [] && IsSeparator(s[0])
    ensures Words(s) == Words(s[1..])
  {
    var n := LeadSeparators(s);
    var rest := s[n..];
    NonEmptyAppend([""], SplitSeparators(rest));
    assert Words(s) == Words(rest);
    if n > 1 {
      assert LeadSeparators(s[1..]) == n - 1;
      assert s[1..][n - 1..] == rest;
      NonEmptyAppend([""], SplitSeparators(rest));
    }
  }

  /** A word that ends where the text ends or at a separator is one word of the text. */
  lemma WordsAfterWord(w: string, x: string)
    requires w != [] && NoSeparator(w)
    requires x == [] || IsSeparator(x[0])
    ensures Words(w + x) == [w] + Words(x)
  {
    var rest := SplitSeparators(x)[1..];
    SplitWordEnd(w, x);
    assert Words(w + x) == [w] + NonEmpty(rest) by {
      NonEmptyAppend([w], rest);
      assert NonEmpty([w]) == [w];
    }
    assert Words(x) == NonEmpty(rest) by {
      NonEmptyAppend([""], rest);
      assert NonEmpty([""]) == [];
    }
  }

  /** The pieces of a word followed by a separator (or by nothing): the word, then the pieces after the separator. */
  lemma SplitWordEnd(w: string, x: string)
    requires NoSeparator(w)
    requires x == [] || IsSeparator(x[0])
    ensures SplitSeparators(x) == [""] + SplitSeparators(x)[1..]
    ensures SplitSeparators(w + x) == [w] + SplitSeparators(x)[1..]
  {
    SplitAfterWord(w, x);
    var px := SplitSeparators(x);
    assert px[0] == "";
    assert w + "" == w;
  }

  /** The words of two texts joined by a separator are the words of one followed by the words of the other. */
  lemma {:induction false} WordsConcat(a: string, c: char, b: string)
    requires IsSeparator(c)
    ensures Words(a + [c] + b) == Words(a) + Words(b)
    decreases |a|
  {
    if a == [] {
      ConcatEmpty(c, b);
    } else if IsSeparator(a[0]) {
      WordsConcat(a[1..], c, b);
      ConcatSeparator(a, c, b);
    } else {
      var n := WordLength(a);
      WordsConcat(a[n..], c, b);
      ConcatWord(a, n, c, b);
    }
  }

  lemma ConcatEmpty(c: char, b: string)
    requires IsSeparator(c)
    ensures Words([] + [c] + b) == Words([]) + Words(b)
  {
    assert [] + [c] + b == [c] + b;
    WordsAfterSeparator([c] + b);
    assert ([c] + b)[1..] == b;
    WordsEmpty();
  }

  lemma ConcatSeparator(a: string, c: char, b: string)
    requires a != [] && IsSeparator(a[0])
    requires Words(a[1..] + [c] + b) == Words(a[1..]) + Words(b)
    ensures Words(a + [c] + b) == Words(a) + Words(b)
  {
    var t := a + [c] + b;
    WordsAfterSeparator(t);
    assert t[1..] == a[1..] + [c] + b;
    WordsAfterSeparator(a);
  }

  lemma ConcatWord(a: string, n: nat, c: char, b: string)
    requires IsSeparator(c) && 0 < n <= |a| && NoSeparator(a[..n]) && (n < |a| ==> IsSeparator(a[n]))
    requires Words(a[n..] + [c] + b) == Words(a[n..]) + Words(b)
    ensures Words(a + [c] + b) == Words(a) + Words(b)
  {
    var w := a[..n];
    var x := a[n..];
    Regroup(a, n, c, b);
    WordThenSeparated(w, x, c, b);
  }

  lemma Regroup(a: string, n: nat, c: char, b: string)
    requires n <= |a|
    ensures a + [c] + b == a[..n] + (a[n..] + [c] + b)
    ensures a == a[..n] + a[n..]
  {
  }

  lemma WordThenSeparated(w: string, x: string, c: char, b: string)
    requires w != [] && NoSeparator(w) && (x == [] || IsSeparator(x[0])) && IsSeparator(c)
    requires Words(x + [c] + b) == Words(x) + Words(b)
    ensures Words(w + (x + [c] + b)) == Words(w + x) + Words(b)
  {
    WordsAfterWord(w, x + [c] + b);
    WordsAfterWord(w, x);
  }

  lemma {:induction false} IntegersAppend(xs: seq<string>, ys: seq<string>)
    ensures Integers(xs + ys) == Integers(xs) + Integers(ys)
  {
    if xs != [] {
      assert (xs + ys)[1..] == xs[1..] + ys;
      IntegersAppend(xs[1..], ys);
    } else {
      assert xs + ys == ys;
    }
  }

  /**
   * A separator cuts the input in two independent halves: the numbers of
   * the whole are the numbers of the first half followed by those of the
   * second. Order is kept and nothing crosses the cut.
   */
  lemma ParseNumbersConcat(a: string, c: char, b: string)
    requires IsSeparator(c)
    ensures ParseNumbers(a + [c] + b) == ParseNumbers(a) + ParseNumbers(b)
  {
    ParseNumbersWords(a + [c] + b);
    ParseNumbersWords(a);
    ParseNumbersWords(b);
    WordsConcat(a, c, b);
    IntegersAppend(Words(a), Words(b));
  }

  /** A text with no integer word, such as an empty or blank input box, gives no numbers. */
  lemma ParseNumbersBlank(value: string)
    requires forall k :: 0 <= k < |value| ==> IsSeparator(value[k])
    ensures ParseNumbers(value) == []
  {
    ParseNumbersWords(value);
    if value != [] {
      WordsConcat([], value[0], value[1..]);
      assert [] + [value[0]] + value[1..] == value;
      ParseNumbersBlank(value[1..]);
      ParseNumbersWords(value[1..]);
      assert Words([]) == [];
    }
  }

  /** The empty text has no words. */
  lemma WordsEmpty()
    ensures Words("") == []
  {
    assert SplitSeparators("") == [""];
    assert NonEmpty([""]) == [];
  }

  /** One printed integer reads back as itself. */
  lemma ParseNumbersShowInt(n: int)
    ensures ParseNumbers(ShowInt(n)) == [n]
  {
    var w := ShowInt(n);
    assert NoSeparator(w);
    WordsAfterWord(w, "");
    assert w + "" == w;
    WordsEmpty();
    ParseNumbersWords(w);
    ParseShowInt(n);
  }

  /**
   * The line the browser hands to the WebAssembly solver and the server writes
   * to the solver process, `numbers.join(" ")`, is read back by `parseNumbers`
   * as the same numbers.
   */
  lemma {:induction false} ParseNumbersJoin(ns: seq<int>)
    ensures ParseNumbers(JoinInts(ns)) == ns
    decreases |ns|
  {
    if ns == [] {
      WordsEmpty();
      ParseNumbersWords("");
    } else {
      ParseNumbersShowInt(ns[0]);
      if |ns| > 1 {
        var w := ShowInt(ns[0]);
        ParseNumbersJoin(ns[1..]);
        ParseNumbersConcat(w, ' ', JoinInts(ns[1..]));
        assert JoinInts(ns) == w + [' '] + JoinInts(ns[1..]);
        assert ns == [ns[0]] + ns[1..];
      }
    }
  }

  // ---------------------------------------------------------------------
  // The /api/solve handler
  // ---------------------------------------------------------------------

  /** A parsed JSON value; numbers are exact. */
  datatype Json =
    | JNull
    | JBool(b: bool)
    | JNumber(x: real)
    | JString(s: string)
    | JArray(items: seq<Json>)
    | JObject(fields: map<string, Json>)

  const MaxNumbers := 8
  const DefaultLimit := 200
  const MaxLimit := 1000
  /** The largest magnitude `isSafeNumber` admits. */
  const MaxMagnitude := 1000

  /** What reading a property of `null` throws, which the handler reports as its message. */
  const NullBodyMessage := "Cannot read properties of null (reading 'numbers')"

  /** `Number.isInteger(v)` */
  predicate IsInteger(v: Json) {
    v.JNumber? && v.x == v.x.Floor as real
  }

  /** `isSafeNumber(v)`: an integer of magnitude at most 1000 (every exact number is finite). */
  predicate IsSafeNumber(v: Json) {
    IsInteger(v) && -MaxMagnitude as real <= v.x <= MaxMagnitude as real
  }

  /** `body[key]` for a body that is not `null`; `None` is `undefined`. */
  function Property(body: Json, key: string): (r: Option<Json>)
    requires !body.JNull?
    ensures r.Some? <==> body.JObject? && key in body.fields
  {
    if body.JObject? && key in body.fields then Some(body.fields[key]) else None
  }

  /** The request's `numbers` field when it is an array, and the empty list otherwise. */
  function RequestNumbers(body: Json): seq<Json>
    requires !body.JNull?
  {
    match Property(body, "numbers")
    case Some(JArray(items)) => items
    case _ => []
  }

  /** The request's `limit` field capped at `MaxLimit` when it is an integer, and `DefaultLimit` otherwise. */
  function RequestLimit(body: Json): int
    requires !body.JNull?
  {
    match Property(body, "limit")
    case Some(v) =>
      if IsInteger(v) then (if v.x.Floor < MaxLimit then v.x.Floor else MaxLimit) else DefaultLimit
    case None => DefaultLimit
  }

  /** The numbers the handler accepts: one to eight, every one safe. */
  predicate ValidNumbers(ns: seq<Json>) {
    1 <= |ns| <= MaxNumbers && forall k :: 0 <= k < |ns| ==> IsSafeNumber(ns[k])
  }

  /** The integer values of numbers already known to be integers. */
  function Ints(ns: seq<Json>): (r: seq<int>)
    requires forall k :: 0 <= k < |ns| ==> IsInteger(ns[k])
    ensures |r| == |ns|
    ensures forall k :: 0 <= k < |ns| ==> ns[k].JNumber? && r[k] as real == ns[k].x
  {
    seq(|ns|, k requires 0 <= k < |ns| && IsInteger(ns[k]) => ns[k].x.Floor)
  }

  /** The solver's standard input: the numbers with single spaces between them, then a line feed. */
  function SolverInput(ns: seq<int>): string {
    JoinInts(ns) + "\n"
  }

  datatype Payload =
    | Failure(message: string)
    | Solved(solutions: seq<Solution>, count: int, limit: int)

  datatype Reply = Reply(status: int, payload: Payload)

  /** The message of a failed solver call, or `solver error` when that message is empty. */
  function ErrorPayload(message: string): (p: Payload)
    ensures p.Failure? && p.message != ""
    ensures message != "" ==> p.message == message
  {
    Failure(if message == "" then "solver error" else message)
  }

  /**
   * The `/api/solve` handler. `body` is what `parseBody` produced (the parsed
   * JSON, or the message it rejected with); `solver` maps the solver's
   * standard input to its standard output, or to the message it failed with.
   */
  function Handle(httpMethod: string, body: Result<Json, string>, solver: string -> Result<string, string>): Reply {
    if httpMethod != "POST" then Reply(405, Failure("Method not allowed"))
    else
      match body
      case Err(message) => Reply(500, ErrorPayload(message))
      case Ok(json) =>
        if json.JNull? then Reply(500, Failure(NullBodyMessage))
        else
          var numbers := RequestNumbers(json);
          var limit := RequestLimit(json);
          if !ValidNumbers(numbers) then Reply(400, Failure("Invalid numbers"))
          else
            match solver(SolverInput(Ints(numbers)))
            case Err(message) => Reply(500, ErrorPayload(message))
            case Ok(stdout) =>
              var solutions := Solutions(stdout, limit);
              Reply(200, Solved(solutions, |solutions|, limit))
  }

  /** The limit the handler uses is at most 1000; an integer at most 1000 is kept, anything else becomes 200. */
  lemma LimitClamp(body: Json)
    requires !body.JNull?
    ensures RequestLimit(body) <= MaxLimit
    ensures var v := Property(body, "limit");
            && (v.Some? && IsInteger(v.value) && v.value.x <= MaxLimit as real ==> RequestLimit(body) as real == v.value.x)
            && (v.Some? && IsInteger(v.value) && v.value.x > MaxLimit as real ==> RequestLimit(body) == MaxLimit)
            && (v.None? || !IsInteger(v.value) ==> RequestLimit(body) == DefaultLimit)
  {
  }

  /** Every answer has one of four statuses; 405 exactly for a method other than POST, and only a 200 carries solutions. */
  lemma HandleStatus(httpMethod: string, body: Result<Json, string>, solver: string -> Result<string, string>)
    ensures var reply := Handle(httpMethod, body, solver);
            && reply.status in {200, 400, 405, 500}
            && (reply.status == 405 <==> httpMethod != "POST")
            && (reply.payload.Solved? <==> reply.status == 200)
            && (reply.payload.Failure? ==> reply.payload.message != "")
  {
  }

  /** A parsed POST body is rejected with 400 exactly when its numbers are not one to eight safe integers. */
  lemma HandleRejects(body: Json, solver: string -> Result<string, string>)
    requires !body.JNull?
    ensures Handle("POST", Ok(body), solver).status == 400 <==> !ValidNumbers(RequestNumbers(body))
  {
  }

  /**
   * A 200 answer comes from a POST whose body held one to eight safe
   * integers; the solver was given exactly those integers, its output is
   * scraped under the clamped limit, and the count is the number of
   * solutions, never more than a positive limit.
   */
  lemma HandleSolved(httpMethod: string, body: Result<Json, string>, solver: string -> Result<string, string>)
    requires Handle(httpMethod, body, solver).status == 200
    ensures httpMethod == "POST" && body.Ok? && !body.value.JNull?
    ensures ValidNumbers(RequestNumbers(body.value))
    ensures var ns := Ints(RequestNumbers(body.value));
            && ParseNumbers(JoinInts(ns)) == ns
            && (forall k :: 0 <= k < |ns| ==> -MaxMagnitude <= ns[k] <= MaxMagnitude)
            && solver(SolverInput(ns)).Ok?
            && var reply := Handle(httpMethod, body, solver);
               var limit := RequestLimit(body.value);
               && reply.payload == Solved(Solutions(solver(SolverInput(ns)).value, limit), reply.payload.count, limit)
               && reply.payload.count == |reply.payload.solutions|
               && limit <= MaxLimit
               && (limit > 0 ==> reply.payload.count <= limit)
  {
    var json := body.value;
    var ns := Ints(RequestNumbers(json));
    ParseNumbersJoin(ns);
    SolutionsShape(solver(SolverInput(ns)).value, RequestLimit(json));
  }
}
