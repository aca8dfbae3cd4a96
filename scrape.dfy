/**
 * The web layer's scraping of the solver's text output. The server's
 * `extractSolutions` keeps, line by line, the text in front of the last
 * ` = 24`, cleans it with `stripPrompt`, drops empty and repeated expressions,
 * pairs each with its LaTeX rendering and stops at the requested limit. The
 * browser's `parseOutput` does the same cut on trimmed lines, without the
 * cleaning and without the de-duplication.
 */
module Scrape {
  import opened Base
  import opened Latex

  /** The end of every solution line the solver prints. */
  const Marker: string := " = 24"

  const FullwidthColon: char := '\U{FF1A}'

  /** Neither an ASCII colon nor a fullwidth colon occurs in `s`. */
  predicate NoColon(s: string) {
    forall k :: 0 <= k < |s| ==> s[k] != ':' && s[k] != FullwidthColon
  }

  // ---------------------------------------------------------------------
  // stripPrompt
  // ---------------------------------------------------------------------

  /** The pattern `(sqrt|lg|lb|log|[0-9(\-])` matches at index `k` of `s`. */
  predicate TokenStartAt(s: string, k: nat)
    requires k < |s|
  {
    || OccursAt(s, "sqrt", k) || OccursAt(s, "lg", k) || OccursAt(s, "lb", k) || OccursAt(s, "log", k)
    || IsDigit(s[k]) || s[k] == '(' || s[k] == '-'
  }

  function FirstTokenFrom(s: string, k: nat): (r: Option<nat>)
    requires k <= |s|
    ensures r.Some? ==> k <= r.value < |s| && TokenStartAt(s, r.value)
    ensures forall j :: k <= j < |s| && (r.None? || j < r.value) ==> !TokenStartAt(s, j)
    decreases |s| - k
  {
    if k == |s| then None
    else if TokenStartAt(s, k) then Some(k)
    else FirstTokenFrom(s, k + 1)
  }

  /** The index of the pattern's first match in `s`, as `String.prototype.match` reports it. */
  function FirstTokenStart(s: string): (r: Option<nat>)
    ensures r.Some? ==> r.value < |s| && TokenStartAt(s, r.value)
    ensures forall j :: 0 <= j < |s| && (r.None? || j < r.value) ==> !TokenStartAt(s, j)
  {
    FirstTokenFrom(s, 0)
  }

  /** How many characters the pattern's match at `k` spans. */
  function TokenLen(s: string, k: nat): nat
    requires k < |s|
  {
    if OccursAt(s, "sqrt", k) then 4
    else if OccursAt(s, "log", k) then 3
    else if OccursAt(s, "lg", k) || OccursAt(s, "lb", k) then 2
    else 1
  }

  /** The characters of a match are never spaces. */
  lemma TokenNotSpace(s: string)
    requires s != [] && TokenStartAt(s, 0)
    ensures TokenLen(s, 0) <= |s|
    ensures forall j :: 0 <= j < TokenLen(s, 0) ==> !IsSpace(s[j])
  {
    if OccursAt(s, "sqrt", 0) {
      assert s[..4] == "sqrt";
      assert s[0] == 's' && s[1] == 'q' && s[2] == 'r' && s[3] == 't';
    } else if OccursAt(s, "log", 0) {
      assert s[..3] == "log";
      assert s[0] == 'l' && s[1] == 'o' && s[2] == 'g';
    } else if OccursAt(s, "lg", 0) {
      assert s[..2] == "lg";
      assert s[0] == 'l' && s[1] == 'g';
    } else if OccursAt(s, "lb", 0) {
      assert s[..2] == "lb";
      assert s[0] == 'l' && s[1] == 'b';
    }
  }

  /** A string that agrees with `s` on the characters of its match matches at 0 too. */
  lemma TokenStartKept(s: string, t: string)
    requires s != [] && TokenStartAt(s, 0)
    requires TokenLen(s, 0) <= |s| && TokenLen(s, 0) <= |t|
    requires t[..TokenLen(s, 0)] == s[..TokenLen(s, 0)]
    ensures TokenStartAt(t, 0)
  {
    var m := TokenLen(s, 0);
    assert t[0] == t[..m][0] == s[..m][0] == s[0];
    if OccursAt(s, "sqrt", 0) {
      assert t[..4] == s[..4];
    } else if OccursAt(s, "log", 0) {
      assert t[..3] == s[..3];
    } else if OccursAt(s, "lg", 0) {
      assert t[..2] == s[..2];
    } else if OccursAt(s, "lb", 0) {
      assert t[..2] == s[..2];
    }
  }

  /** The prompt `>>>` and the spaces after it removed, when the text starts with the prompt. */
  function DropPrompt(s: string): (r: string)
    requires IsTrimmed(s)
    ensures IsTrimmed(r) && IsSuffix(r, s)
    ensures forall k :: 0 <= k < |s| - |r| ==> s[k] == '>' || IsSpace(s[k])
    ensures StartsWith(s, ">>>") ==> |r| + 3 <= |s| && AllSpace(s[3..|s| - |r|])
    ensures !StartsWith(s, ">>>") ==> r == s
  {
    if StartsWith(s, ">>>") then
      var r := TrimStart(s[3..]);
      assert r == s[3 + Lead(s[3..])..];
      assert s[3..|s| - |r|] == s[3..][..Lead(s[3..])];
      assert forall k :: 3 <= k < 3 + Lead(s[3..]) ==> s[3..][..Lead(s[3..])][k - 3] == s[k];
      assert forall k :: 0 <= k < 3 ==> s[..3][k] == s[k];
      assert r != [] ==> r[|r| - 1] == s[|s| - 1];
      r
    else s
  }

  function Max(a: int, b: int): int {
    if a < b then b else a
  }

  /** A one-character pattern occurs exactly where that character stands. */
  lemma OccursOne(s: string, c: char, k: int)
    requires 0 <= k < |s|
    ensures OccursAt(s, [c], k) <==> s[k] == c
  {
    assert s[k..k + 1] == [s[k]];
  }

  /** Past the last colon of either kind the text is colon-free. */
  lemma NoColonAfter(s: string, cut: int)
    requires -1 <= cut < |s|
    requires forall m :: cut < m ==> !OccursAt(s, ":", m)
    requires forall m :: cut < m ==> !OccursAt(s, [FullwidthColon], m)
    ensures NoColon(s[cut + 1..])
  {
    var t := s[cut + 1..];
    forall k | 0 <= k < |t|
      ensures t[k] != ':' && t[k] != FullwidthColon
    {
      OccursOne(s, ':', cut + 1 + k);
      OccursOne(s, FullwidthColon, cut + 1 + k);
    }
  }

  /** Trimming cannot bring a colon in. */
  lemma TrimNoColon(t: string)
    requires NoColon(t)
    ensures NoColon(Trim(t))
  {
    var r := Trim(t);
    assert forall k :: 0 <= k < |r| ==> r[k] == t[Lead(t) + k];
  }

  /** A trimmed text keeps its end when the text from `k` on is trimmed. */
  lemma TrimTail(s: string, k: nat)
    requires IsTrimmed(s) && k <= |s|
    ensures IsSuffix(Trim(s[k..]), s)
  {
    var x := s[k..];
    if x == [] {
      assert |Trim(x)| == 0;
    } else {
      assert !IsSpace(x[|x| - 1]) by { assert x[|x| - 1] == s[|s| - 1]; }
      NonSpaceEnd(x);
      SuffixOfTail(s, k, Trim(x));
    }
  }

  /** A suffix of the text from `k` on is a suffix of the whole. */
  lemma SuffixOfTail(s: string, k: nat, t: string)
    requires k <= |s| && IsSuffix(t, s[k..])
    ensures IsSuffix(t, s)
  {
    assert s[k..][|s| - k - |t|..] == s[|s| - |t|..];
  }

  /** A colon of either kind. */
  predicate IsColon(c: char) {
    c == ':' || c == FullwidthColon
  }

  /**
   * Everything after the last colon, ASCII or fullwidth, trimmed; the whole
   * text when there is none.
   */
  function DropLabel(s: string): (r: string)
    requires IsTrimmed(s)
    ensures IsTrimmed(r) && NoColon(r) && IsSuffix(r, s)
    ensures NoColon(s) ==> r == s
    ensures forall c :: 0 <= c < |s| && IsColon(s[c]) && NoColon(s[c + 1..]) ==> r == Trim(s[c + 1..])
  {
    var full := LastIndexOf(s, [FullwidthColon]);
    var ascii := LastIndexOf(s, ":");
    var cut := Max(full, ascii);
    NoColonAfter(s, cut);
    if cut != -1 then
      assert OccursAt(s, [FullwidthColon], cut) || OccursAt(s, ":", cut);
      OccursOne(s, ':', cut);
      OccursOne(s, FullwidthColon, cut);
      AfterLastColon(s, cut);
      Trim(s[cut + 1..])
    else
      assert s[0..] == s;
      assert forall c :: 0 <= c < |s| ==> !IsColon(s[c]);
      s
  }

  /** The trimmed text after the last colon `cut`, as `DropLabel` promises it. */
  lemma AfterLastColon(s: string, cut: nat)
    requires IsTrimmed(s) && cut < |s| && IsColon(s[cut]) && NoColon(s[cut + 1..])
    ensures var r := Trim(s[cut + 1..]);
            && IsTrimmed(r) && NoColon(r) && IsSuffix(r, s)
            && forall c :: 0 <= c < |s| && IsColon(s[c]) && NoColon(s[c + 1..]) ==> r == Trim(s[c + 1..])
  {
    TrimNoColon(s[cut + 1..]);
    TrimTail(s, cut + 1);
    LastColonUnique(s, cut);
  }

  /** A text with no colon after `c` has none at `j > c`. */
  lemma ColonFree(s: string, c: nat, j: nat)
    requires c < |s| && j < |s| && NoColon(s[c + 1..])
    ensures c < j ==> !IsColon(s[j])
  {
    if c < j {
      assert s[c + 1..][j - c - 1] == s[j];
    }
  }

  /** Only one colon has no colon after it. */
  lemma LastColonUnique(s: string, cut: nat)
    requires cut < |s| && IsColon(s[cut]) && NoColon(s[cut + 1..])
    ensures forall c :: 0 <= c < |s| && IsColon(s[c]) && NoColon(s[c + 1..]) ==> c == cut
  {
    forall c | 0 <= c < |s| && IsColon(s[c]) && NoColon(s[c + 1..])
      ensures c == cut
    {
      ColonFree(s, c, cut);
      ColonFree(s, cut, c);
    }
  }

  /** A match at `k` is a match at the front of the text from `k` on. */
  lemma TokenShift(s: string, k: nat)
    requires k < |s| && TokenStartAt(s, k)
    ensures TokenStartAt(s[k..], 0)
  {
    var x := s[k..];
    if OccursAt(s, "sqrt", k) {
      assert x[..4] == s[k..k + 4];
    } else if OccursAt(s, "log", k) {
      assert x[..3] == s[k..k + 3];
    } else if OccursAt(s, "lg", k) {
      assert x[..2] == s[k..k + 2];
    } else if OccursAt(s, "lb", k) {
      assert x[..2] == s[k..k + 2];
    }
  }

  /** Trimming a text that starts with a match keeps the match at the front. */
  lemma TokenTrim(x: string)
    requires x != [] && TokenStartAt(x, 0)
    ensures FirstTokenStart(Trim(x)) == Some(0)
  {
    TokenNotSpace(x);
    TrimKeepsFront(x, TokenLen(x, 0));
    TokenStartKept(x, Trim(x));
  }

  /** Cleaning once more after cutting at the first match keeps the match at the front. */
  lemma FromToken(s: string, k: nat)
    requires k < |s| && TokenStartAt(s, k) && NoColon(s)
    ensures NoColon(Trim(s[k..]))
    ensures FirstTokenStart(Trim(s[k..])) == Some(0)
  {
    TokenShift(s, k);
    TokenTrim(s[k..]);
    TrimNoColon(s[k..]);
  }

  /**
   * `stripPrompt`: the expression part of what precedes ` = 24`. The prompt
   * `>>>`, everything up to the last colon and everything before the first
   * character that can start an expression are cut away. The result carries
   * no colon, no surrounding spaces, and a possible expression start only at
   * its front.
   */
  function StripPrompt(expr: string): (r: string)
    ensures IsTrimmed(r) && NoColon(r) && IsSuffix(r, Trim(expr))
    ensures FirstTokenStart(r).None? || FirstTokenStart(r) == Some(0)
  {
    var c := Trim(expr);
    var p := DropPrompt(c);
    var s := DropLabel(p);
    SuffixTrans(s, p, c);
    match FirstTokenStart(s)
    case Some(k) =>
      if k > 0 then
        FromToken(s, k);
        TrimTail(s, k);
        SuffixTrans(Trim(s[k..]), s, c);
        Trim(s[k..])
      else s
    case None => s
  }

  lemma SuffixTrans(a: string, b: string, c: string)
    requires IsSuffix(a, b) && IsSuffix(b, c)
    ensures IsSuffix(a, c)
  {
    assert c[|c| - |b|..][|b| - |a|..] == c[|c| - |a|..];
  }

  /** In a trimmed text, the text from a match on is already trimmed. */
  lemma TrimFromToken(s: string, k: nat)
    requires IsTrimmed(s) && k < |s| && TokenStartAt(s, k)
    ensures Trim(s[k..]) == s[k..]
  {
    TokenShift(s, k);
    TokenNotSpace(s[k..]);
    assert s[k..][|s| - k - 1] == s[|s| - 1];
    TrimTrimmed(s[k..]);
  }

  /**
   * What `stripPrompt` returns: after the prompt and the label are dropped,
   * the text from the first match of the pattern on, or all of it when
   * nothing matches. The final trim never removes anything.
   */
  lemma StripPromptCut(expr: string, s: string)
    requires s == DropLabel(DropPrompt(Trim(expr)))
    ensures FirstTokenStart(s).Some? ==> StripPrompt(expr) == s[FirstTokenStart(s).value..]
    ensures FirstTokenStart(s).None? ==> StripPrompt(expr) == s
  {
    match FirstTokenStart(s)
    case Some(k) =>
      if k > 0 {
        StripPromptCutAt(expr, s, k);
        TrimFromToken(s, k);
      } else {
        StripPromptNoCut(expr, s);
        assert s[0..] == s;
      }
    case None =>
      StripPromptNoCut(expr, s);
  }

  /** A cut past the front: the trimmed text from the match on. */
  lemma StripPromptCutAt(expr: string, s: string, k: nat)
    requires s == DropLabel(DropPrompt(Trim(expr)))
    requires 0 < k && FirstTokenStart(s) == Some(k)
    ensures StripPrompt(expr) == Trim(s[k..])
  {
  }

  /** A clean expression (trimmed, colon-free, starting like an expression) passes unchanged. */
  lemma StripPromptKeepsExpression(e: string)
    requires e != [] && IsTrimmed(e) && NoColon(e) && TokenStartAt(e, 0)
    ensures StripPrompt(e) == e
  {
    TrimTrimmed(e);
    assert !StartsWith(e, ">>>") by {
      assert |e| >= 3 ==> e[..3][0] == e[0];
    }
    assert FirstTokenStart(e) == Some(0);
  }

  /** Cleaning is idempotent on every result that contains an expression start. */
  lemma StripPromptIdempotent(expr: string)
    requires FirstTokenStart(StripPrompt(expr)).Some?
    ensures StripPrompt(StripPrompt(expr)) == StripPrompt(expr)
  {
    StripPromptKeepsExpression(StripPrompt(expr));
  }

  /** An occurrence starts with the pattern's first character. */
  lemma OccursFirstChar(s: string, pat: string, k: int)
    requires |pat| >= 1
    ensures OccursAt(s, pat, k) ==> s[k] == pat[0]
  {
    if OccursAt(s, pat, k) {
      assert s[k..k + |pat|][0] == s[k];
    }
  }

  /** No expression token starts in a text made of `>`, spaces and `x`. */
  lemma NoTokenIn(t: string)
    requires forall j :: 0 <= j < |t| ==> t[j] == '>' || t[j] == ' ' || t[j] == 'x'
    ensures FirstTokenStart(t).None?
  {
    forall j | 0 <= j < |t|
      ensures !TokenStartAt(t, j)
    {
      OccursFirstChar(t, "sqrt", j);
      OccursFirstChar(t, "log", j);
      OccursFirstChar(t, "lg", j);
      OccursFirstChar(t, "lb", j);
    }
  }

  /** The prompt and one space in front of a trimmed text are removed. */
  lemma DropPromptOf(x: string)
    requires x != [] && IsTrimmed(x)
    ensures IsTrimmed(">>> " + x) && DropPrompt(">>> " + x) == x
  {
    var line := ">>> " + x;
    assert IsTrimmed(line);
    assert StartsWith(line, ">>>") by { assert line[..3] == ">>>"; }
    assert line[3..] == " " + x;
    LeadAfterSpaces(" ", x);
    assert Lead(x) == 0;
  }

  /** When no token starts past the front of the unlabelled text, that text is the result. */
  lemma StripPromptNoCut(expr: string, s: string)
    requires s == DropLabel(DropPrompt(Trim(expr)))
    requires FirstTokenStart(s).None? || FirstTokenStart(s) == Some(0)
    ensures StripPrompt(expr) == s
  {
  }

  /** A prompt in front of a clean text with no expression token is all that cleaning removes. */
  lemma StripPromptOfPrompt(x: string)
    requires x != [] && IsTrimmed(x) && NoColon(x) && FirstTokenStart(x).None?
    ensures StripPrompt(">>> " + x) == x
  {
    DropPromptOf(x);
    TrimTrimmed(">>> " + x);
    StripPromptNoCut(">>> " + x, x);
  }

  /** A doubled prompt loses one `>>>` to a cleaning ... */
  lemma StripDoubledPrompt()
    ensures StripPrompt(">>> >>> x") == ">>> x"
  {
    var b := ">>> x";
    assert ">>> >>> x" == ">>> " + b;
    assert IsTrimmed(b) && NoColon(b);
    NoTokenIn(b);
    StripPromptOfPrompt(b);
  }

  /** ... and the single prompt left loses its own to the next. */
  lemma StripSinglePrompt()
    ensures StripPrompt(">>> x") == "x"
  {
    assert ">>> x" == ">>> " + "x";
    assert IsTrimmed("x") && NoColon("x");
    NoTokenIn("x");
    StripPromptOfPrompt("x");
  }

  /**
   * Cleaning is not idempotent in general: a doubled prompt in front of text
   * with no expression token loses one prompt per cleaning.
   */
  lemma StripPromptTwice()
    ensures StripPrompt(">>> >>> x") == ">>> x"
    ensures StripPrompt(StripPrompt(">>> >>> x")) == "x"
  {
    StripDoubledPrompt();
    StripSinglePrompt();
  }

  /** The prompt `>>> ` in front of a clean expression is removed. */
  lemma StripPromptDropsPrompt(e: string)
    requires e != [] && IsTrimmed(e) && NoColon(e) && TokenStartAt(e, 0)
    ensures StripPrompt(">>> " + e) == e
  {
    DropPromptOf(e);
    TrimTrimmed(">>> " + e);
    assert FirstTokenStart(e) == Some(0);
    StripPromptNoCut(">>> " + e, e);
  }

  /** Trimming `tag:e` only removes spaces in front of the colon. */
  lemma LabelLead(tag: string, e: string)
    ensures Lead(tag + ":" + e) <= |tag|
  {
    var line := tag + ":" + e;
    assert line[|tag|] == ':';
    LeadBefore(line, |tag|);
  }

  /** Trimming `tag:e` for a trimmed `e` keeps the end. */
  lemma LabelTrim(tag: string, e: string)
    requires e != [] && IsTrimmed(e)
    ensures Trim(tag + ":" + e) == (tag + ":" + e)[Lead(tag + ":" + e)..]
  {
    var line := tag + ":" + e;
    assert line[|line| - 1] == e[|e| - 1];
    NonSpaceEnd(line);
  }

  /** The leading spaces stop at the first non-space character. */
  lemma LeadBefore(s: string, k: nat)
    requires k < |s| && !IsSpace(s[k])
    ensures Lead(s) <= k
  {
  }

  /** The prompt is made of '>' and spaces, so a colon followed by `e` survives it. */
  lemma ColonSurvivesPrompt(c1: string, q: nat, e: string)
    requires IsTrimmed(c1) && q < |c1| && c1[q] == ':' && c1[q + 1..] == e
    ensures |DropPrompt(c1)| > |e|
    ensures DropPrompt(c1)[|DropPrompt(c1)| - |e| - 1] == ':'
    ensures DropPrompt(c1)[|DropPrompt(c1)| - |e|..] == e
  {
    var c2 := DropPrompt(c1);
    assert q >= |c1| - |c2|;
    assert c2 == c1[|c1| - |c2|..];
    assert c2[|c2| - |e| - 1] == c1[q];
  }

  /** The last colon of a text that ends in `:e` is the one in front of `e`. */
  lemma DropLabelAt(s: string, e: string)
    requires IsTrimmed(s) && IsTrimmed(e) && NoColon(e)
    requires |s| > |e| && s[|s| - |e| - 1] == ':' && s[|s| - |e|..] == e
    ensures DropLabel(s) == e
  {
    var colon := |s| - |e| - 1;
    OccursOne(s, ':', colon);
    forall m | colon < m
      ensures !OccursAt(s, ":", m) && !OccursAt(s, [FullwidthColon], m)
    {
      if m < |s| {
        assert s[m] == e[m - colon - 1];
        OccursOne(s, ':', m);
        OccursOne(s, FullwidthColon, m);
      }
    }
    LastIndexOfUnique(s, ":", colon);
    TrimTrimmed(e);
  }

  /** Whatever label ends in a colon, only the clean expression after the colon is kept. */
  lemma StripPromptDropsLabel(tag: string, e: string)
    requires e != [] && IsTrimmed(e) && NoColon(e) && TokenStartAt(e, 0)
    ensures StripPrompt(tag + ":" + e) == e
  {
    var line := tag + ":" + e;
    LabelLead(tag, e);
    LabelTrim(tag, e);
    var a := Lead(line);
    var c1 := Trim(line);
    assert c1[|tag| - a] == ':' && c1[|tag| - a + 1..] == e;
    ColonSurvivesPrompt(c1, |tag| - a, e);
    DropLabelAt(DropPrompt(c1), e);
    assert FirstTokenStart(e) == Some(0);
  }

  // ---------------------------------------------------------------------
  // Cutting one output line
  // ---------------------------------------------------------------------

  /**
   * The text in front of the last ` = 24` of a line, trimmed; empty when the
   * marker is missing or opens the line (`idx > 0`).
   */
  function BeforeMarker(line: string): (r: string)
    ensures IsTrimmed(r)
    ensures r != "" ==> |r| + |Marker| <= |line|
    ensures forall i :: 0 < i && OccursAt(line, Marker, i) && (forall m :: i < m ==> !OccursAt(line, Marker, m)) ==>
              r == Trim(line[..i])
    ensures (forall m :: 0 < m ==> !OccursAt(line, Marker, m)) ==> r == ""
  {
    var idx := LastIndexOf(line, Marker);
    if idx > 0 then Trim(line[..idx]) else ""
  }

  /** A line the solver prints for a trimmed expression yields that expression. */
  lemma BeforeMarkerOfLine(e: string)
    requires e != [] && IsTrimmed(e)
    ensures BeforeMarker(e + Marker) == e
  {
    var line := e + Marker;
    assert OccursAt(line, Marker, |e|) by { assert line[|e|..|e| + 5] == Marker; }
    LastIndexOfUnique(line, Marker, |e|);
    assert line[..|e|] == e;
    TrimTrimmed(e);
  }

  /** A solver line `>>> e = 24` for a clean expression `e` yields `e` after cleaning. */
  lemma CandidateOfPromptLine(e: string)
    requires e != [] && IsTrimmed(e) && NoColon(e) && TokenStartAt(e, 0)
    ensures Candidate(">>> " + e + Marker) == e
  {
    var shown := ">>> " + e;
    assert IsTrimmed(shown);
    BeforeMarkerOfLine(shown);
    StripPromptDropsPrompt(e);
  }

  /** An occurrence in a slice is an occurrence in the whole text, shifted. */
  lemma ShiftOccurs(line: string, t: string, a: nat, m: int)
    requires a + |t| <= |line| && t == line[a..a + |t|]
    requires OccursAt(t, Marker, m)
    ensures OccursAt(line, Marker, a + m)
  {
    assert |Marker| == 5;
    SliceOfSlice(line, a, a + |t|, m, m + 5);
  }

  /** A non-space character after the leading spaces lies inside the trimmed text. */
  lemma NonSpaceInside(s: string, j: nat)
    requires Lead(s) <= j < |s| && !IsSpace(s[j])
    ensures j < Lead(s) + |Trim(s)|
  {
  }

  /** The trimmed text has no occurrence beyond the whole line's last one. */
  lemma NoneLater(line: string, r: int)
    requires r >= LastIndexOf(line, Marker) - Lead(line)
    ensures forall m :: r < m ==> !OccursAt(Trim(line), Marker, m)
  {
    var a := Lead(line);
    var t := Trim(line);
    forall m | r < m
      ensures !OccursAt(t, Marker, m)
    {
      if OccursAt(t, Marker, m) {
        ShiftOccurs(line, t, a, m);
      }
    }
  }

  /** An occurrence of the marker inside a window of the line, with none later in the window, is the window's last. */
  lemma MarkerInWindow(line: string, t: string, a: nat, idx: nat)
    requires a <= idx && idx + |Marker| <= a + |t| <= |line| && t == line[a..a + |t|]
    requires OccursAt(line, Marker, idx)
    requires forall m :: idx - a < m ==> !OccursAt(t, Marker, m)
    ensures LastIndexOf(t, Marker) == idx - a
  {
    SliceOfSlice(line, a, a + |t|, idx - a, idx - a + |Marker|);
    LastIndexOfUnique(t, Marker, idx - a);
  }

  /** A marker after the leading spaces is found at the shifted index. */
  lemma MarkerInside(line: string)
    requires LastIndexOf(line, Marker) >= Lead(line)
    ensures LastIndexOf(Trim(line), Marker) == LastIndexOf(line, Marker) - Lead(line)
  {
    var idx := LastIndexOf(line, Marker);
    // the marker ends with '4', not a space, so it lies inside the trimmed part
    assert line[idx + 4] == line[idx..idx + 5][4] == '4';
    NonSpaceInside(line, idx + 4);
    NoneLater(line, idx - Lead(line));
    MarkerInWindow(line, Trim(line), Lead(line), idx);
  }

  /** A marker inside the leading spaces (or none at all) is not found in the trimmed line. */
  lemma MarkerOutside(line: string)
    requires LastIndexOf(line, Marker) < Lead(line)
    ensures LastIndexOf(Trim(line), Marker) == -1
  {
    NoneLater(line, -1);
    LastIndexOfUnique(Trim(line), Marker, -1);
  }

  /** Where the trimmed line finds the marker, given where the whole line finds it. */
  lemma MarkerInTrim(line: string)
    ensures var idx := LastIndexOf(line, Marker);
            LastIndexOf(Trim(line), Marker) == if idx >= Lead(line) then idx - Lead(line) else -1
  {
    if LastIndexOf(line, Marker) >= Lead(line) {
      MarkerInside(line);
    } else {
      MarkerOutside(line);
    }
  }

  /** The browser trims every line before cutting it, which changes nothing. */
  lemma BeforeMarkerTrim(line: string)
    ensures BeforeMarker(Trim(line)) == BeforeMarker(line)
  {
    var a := Lead(line);
    var t := Trim(line);
    var idx := LastIndexOf(line, Marker);
    MarkerInTrim(line);
    if idx > a {
      CutAfterLead(line, a, t, idx);
    } else if idx > 0 {
      CutInLead(line, a, idx);
    }
  }

  /** Cutting past the leading spaces trims as cutting the trimmed text does. */
  lemma CutAfterLead(line: string, a: nat, t: string, idx: nat)
    requires a + |t| <= |line| && t == line[a..a + |t|] && AllSpace(line[..a]) && a <= idx <= a + |t|
    ensures Trim(line[..idx]) == Trim(t[..idx - a])
  {
    assert line[..idx] == line[..a] + t[..idx - a];
    TrimAfterSpaces(line[..a], t[..idx - a]);
  }

  /** Cutting inside the leading spaces leaves nothing. */
  lemma CutInLead(line: string, a: nat, idx: nat)
    requires idx <= a <= |line| && AllSpace(line[..a])
    ensures Trim(line[..idx]) == ""
  {
    assert AllSpace(line[..idx]) by {
      assert forall k :: 0 <= k < idx ==> line[..idx][k] == line[..a][k];
    }
    TrimAllSpace(line[..idx]);
  }

  /** Nothing cleans to nothing. */
  lemma StripPromptEmpty()
    ensures StripPrompt("") == ""
  {
    assert Trim("") == "";
    assert DropLabel("") == "";
  }

  /** What the server makes of one output line: the cleaned expression, or "" to skip it. */
  function Candidate(line: string): (r: string)
    ensures IsTrimmed(r) && NoColon(r)
    ensures r != "" ==> BeforeMarker(line) != ""
  {
    StripPromptEmpty();
    StripPrompt(BeforeMarker(line))
  }

  // ---------------------------------------------------------------------
  // Lists of lines
  // ---------------------------------------------------------------------

  /** `Array.prototype.map` on strings. */
  function Map(f: string -> string, xs: seq<string>): (ys: seq<string>)
    ensures |ys| == |xs|
  {
    seq(|xs|, k requires 0 <= k < |xs| => f(xs[k]))
  }

  lemma MapAt(f: string -> string, xs: seq<string>, k: nat)
    requires k < |xs|
    ensures Map(f, xs)[k] == f(xs[k])
  {
  }

  /** `filter(Boolean)` on strings: the non-empty ones, in order. */
  function NonEmpty(xs: seq<string>): (ys: seq<string>)
    ensures |ys| <= |xs|
    ensures forall y :: y in ys <==> y in xs && y != ""
  {
    if xs == [] then []
    else
      var last := xs[|xs| - 1];
      assert xs == xs[..|xs| - 1] + [last];
      NonEmpty(xs[..|xs| - 1]) + (if last == "" then [] else [last])
  }

  lemma {:induction false} MapAppend(f: string -> string, xs: seq<string>, ys: seq<string>)
    ensures Map(f, xs + ys) == Map(f, xs) + Map(f, ys)
    decreases |ys|
  {
    if ys == [] {
      assert xs + ys == xs;
    } else {
      var init := ys[..|ys| - 1];
      assert (xs + ys)[..|xs + ys| - 1] == xs + init;
      MapAppend(f, xs, init);
    }
  }

  lemma {:induction false} NonEmptyAppend(xs: seq<string>, ys: seq<string>)
    ensures NonEmpty(xs + ys) == NonEmpty(xs) + NonEmpty(ys)
    decreases |ys|
  {
    if ys == [] {
      assert xs + ys == xs;
    } else {
      var init := ys[..|ys| - 1];
      assert (xs + ys)[..|xs + ys| - 1] == xs + init;
      NonEmptyAppend(xs, init);
    }
  }

  /** Removing empty strings first changes nothing when `f` maps "" to "" and empties are removed after. */
  lemma {:induction false} NonEmptyMapNonEmpty(f: string -> string, xs: seq<string>)
    requires f("") == ""
    ensures NonEmpty(Map(f, NonEmpty(xs))) == NonEmpty(Map(f, xs))
  {
    if xs != [] {
      var init := xs[..|xs| - 1];
      var last := xs[|xs| - 1];
      NonEmptyMapNonEmpty(f, init);
      assert xs == init + [last];
      NonEmptyAppend(init, [last]);
      MapAppend(f, init, [last]);
      MapAppend(f, NonEmpty(init), NonEmpty([last]));
      NonEmptyAppend(Map(f, init), Map(f, [last]));
      NonEmptyAppend(Map(f, NonEmpty(init)), Map(f, NonEmpty([last])));
      if last == "" {
        assert NonEmpty([last]) == [];
        assert NonEmpty(Map(f, [last])) == [];
      } else {
        assert NonEmpty([last]) == [last];
      }
    }
  }

  /** Candidate expressions of the output lines, in order, empty ones skipped. */
  function Candidates(lines: seq<string>): seq<string> {
    NonEmpty(Map(Candidate, lines))
  }

  predicate Distinct(xs: seq<string>) {
    forall i, j :: 0 <= i < j < |xs| ==> xs[i] != xs[j]
  }

  /** The first occurrence of every string, in order (the role of the `seen` set). */
  function Dedup(xs: seq<string>): (ys: seq<string>)
    ensures Distinct(ys)
    ensures |ys| <= |xs|
    ensures forall y :: y in ys <==> y in xs
  {
    if xs == [] then []
    else
      var last := xs[|xs| - 1];
      assert xs == xs[..|xs| - 1] + [last];
      var d := Dedup(xs[..|xs| - 1]);
      if last in d then d else d + [last]
  }

  /** Reading on only appends to what has been kept so far. */
  lemma {:induction false} DedupPrefix(xs: seq<string>, ys: seq<string>)
    ensures |Dedup(xs)| <= |Dedup(xs + ys)|
    ensures Dedup(xs + ys)[..|Dedup(xs)|] == Dedup(xs)
    decreases |ys|
  {
    if ys == [] {
      assert xs + ys == xs;
    } else {
      var init := ys[..|ys| - 1];
      assert (xs + ys)[..|xs + ys| - 1] == xs + init;
      DedupPrefix(xs, init);
    }
  }

  /** Keeping the first occurrences of distinct strings keeps them all. */
  lemma {:induction false} DedupDistinct(xs: seq<string>)
    requires Distinct(xs)
    ensures Dedup(xs) == xs
  {
    if xs != [] {
      var init := xs[..|xs| - 1];
      DedupDistinct(init);
      assert xs[|xs| - 1] !in init;
    }
  }

  /** How many solutions a non-zero limit lets through: `limit`, or one when it is negative. */
  function Bound(limit: int): (b: nat)
    requires limit != 0
    ensures b >= 1 && (limit > 0 ==> b == limit)
  {
    if limit > 0 then limit else 1
  }

  /**
   * The limit test that ends the loop: a zero limit never stops it; any other
   * stops it once as many solutions as `limit` are kept, or after the first
   * one when `limit` is negative.
   */
  function Capped(xs: seq<string>, limit: int): (ys: seq<string>)
    ensures |ys| <= |xs| && ys == xs[..|ys|]
    ensures limit == 0 ==> ys == xs
    ensures limit != 0 ==> |ys| == if |xs| < Bound(limit) then |xs| else Bound(limit)
  {
    if limit == 0 || |xs| < Bound(limit) then xs else xs[..Bound(limit)]
  }

  datatype Solution = Solution(infix: string, latex: string)

  /** Every kept expression paired with its `infixToLatex` rendering. */
  function Annotate(xs: seq<string>): (ss: seq<Solution>)
    ensures |ss| == |xs|
    ensures forall k :: 0 <= k < |xs| ==> ss[k].infix == xs[k] && ss[k].latex == InfixToLatex(xs[k])
  {
    seq(|xs|, k requires 0 <= k < |xs| => Solution(xs[k], InfixToLatex(xs[k])))
  }

  /**
   * The scan of `extractSolutions` over the candidates `cs` of the lines,
   * from line `i` on, with `kept` the expressions kept so far: skip empty and
   * repeated candidates, keep the others, stop as soon as a kept expression
   * reaches the limit.
   */
  function Scan(cs: seq<string>, i: nat, kept: seq<string>, limit: int): seq<string>
    requires i <= |cs|
    decreases |cs| - i
  {
    if i == |cs| then kept
    else if cs[i] == "" || cs[i] in kept then Scan(cs, i + 1, kept, limit)
    else if limit != 0 && |kept| + 1 >= limit then kept + [cs[i]]
    else Scan(cs, i + 1, kept + [cs[i]], limit)
  }

  /** What `extractSolutions(output, limit)` returns. */
  function Solutions(output: string, limit: int): seq<Solution> {
    Annotate(Scan(Map(Candidate, SplitLines(output)), 0, [], limit))
  }

  /** At the break, the expressions kept so far are exactly the capped ones of the whole output. */
  lemma CappedAtBreak(cs: seq<string>, i: nat, limit: int)
    requires i <= |cs| && limit != 0
    requires |Dedup(NonEmpty(cs[..i]))| == Bound(limit)
    ensures Capped(Dedup(NonEmpty(cs)), limit) == Dedup(NonEmpty(cs[..i]))
  {
    var pre := NonEmpty(cs[..i]);
    var post := NonEmpty(cs[i..]);
    assert cs == cs[..i] + cs[i..];
    NonEmptyAppend(cs[..i], cs[i..]);
    DedupPrefix(pre, post);
    var d := Dedup(pre + post);
    assert d[..Bound(limit)] == Dedup(pre);
  }

  /** Filtering one more element appends it, unless it is empty. */
  lemma NonEmptySnoc(xs: seq<string>, i: nat)
    requires i < |xs|
    ensures NonEmpty(xs[..i + 1]) == NonEmpty(xs[..i]) + if xs[i] == "" then [] else [xs[i]]
  {
    assert xs[..i + 1][..i] == xs[..i];
  }

  /** A new string is kept at the end; a repeated one changes nothing. */
  lemma DedupSnoc(xs: seq<string>, c: string)
    ensures Dedup(xs + [c]) == if c in Dedup(xs) then Dedup(xs) else Dedup(xs) + [c]
  {
    assert (xs + [c])[..|xs|] == xs;
  }

  /** Reading one more line keeps its candidate when it is new and non-empty. */
  lemma DedupStep(cs: seq<string>, i: nat)
    requires i < |cs|
    ensures var kept := Dedup(NonEmpty(cs[..i]));
            Dedup(NonEmpty(cs[..i + 1])) == if cs[i] == "" || cs[i] in kept then kept else kept + [cs[i]]
  {
    NonEmptySnoc(cs, i);
    if cs[i] != "" {
      DedupSnoc(NonEmpty(cs[..i]), cs[i]);
    } else {
      assert NonEmpty(cs[..i]) + [] == NonEmpty(cs[..i]);
    }
  }

  /** The server's own steps on one line compute its candidate. */
  lemma CandidateSteps(line: string)
    ensures var idx := LastIndexOf(line, Marker);
            Candidate(line) == if idx > 0 then StripPrompt(Trim(line[..idx])) else ""
  {
    StripPromptEmpty();
  }

  lemma AnnotateSnoc(xs: seq<string>, x: string)
    ensures Annotate(xs + [x]) == Annotate(xs) + [Solution(x, InfixToLatex(x))]
  {
  }

  /** The set of the strings of a sequence: what `seen` holds. */
  function Members(xs: seq<string>): set<string> {
    if xs == [] then {} else Members(xs[..|xs| - 1]) + {xs[|xs| - 1]}
  }

  lemma {:induction false} MembersIn(xs: seq<string>, x: string)
    ensures x in Members(xs) <==> x in xs
  {
    if xs != [] {
      MembersIn(xs[..|xs| - 1], x);
      assert xs == xs[..|xs| - 1] + [xs[|xs| - 1]];
    }
  }

  lemma MembersSnoc(xs: seq<string>, x: string)
    ensures Members(xs + [x]) == Members(xs) + {x}
  {
    assert (xs + [x])[..|xs|] == xs;
  }

  /**
   * The scan keeps the first occurrence of every non-empty candidate, in
   * order, cut at the limit.
   */
  lemma {:induction false} ScanMeaning(cs: seq<string>, i: nat, kept: seq<string>, limit: int)
    requires i <= |cs|
    requires kept == Dedup(NonEmpty(cs[..i]))
    requires limit != 0 ==> |kept| < Bound(limit)
    ensures Scan(cs, i, kept, limit) == Capped(Dedup(NonEmpty(cs)), limit)
    decreases |cs| - i
  {
    if i == |cs| {
      ScanAtEnd(cs, kept, limit);
    } else if cs[i] == "" || cs[i] in kept {
      DedupStep(cs, i);
      ScanSkip(cs, i, kept, limit);
      ScanMeaning(cs, i + 1, kept, limit);
    } else if limit != 0 && |kept| + 1 >= limit {
      ScanStopMeaning(cs, i, kept, limit);
    } else {
      DedupStep(cs, i);
      ScanKeep(cs, i, kept, limit);
      ScanMeaning(cs, i + 1, kept + [cs[i]], limit);
    }
  }

  /** Once every line is scanned, what was kept is the capped whole. */
  lemma ScanAtEnd(cs: seq<string>, kept: seq<string>, limit: int)
    requires kept == Dedup(NonEmpty(cs[..|cs|]))
    requires limit != 0 ==> |kept| < Bound(limit)
    ensures Scan(cs, |cs|, kept, limit) == Capped(Dedup(NonEmpty(cs)), limit)
  {
    assert cs[..|cs|] == cs;
  }

  /** A new candidate that reaches the limit completes the capped whole. */
  lemma ScanStopMeaning(cs: seq<string>, i: nat, kept: seq<string>, limit: int)
    requires i < |cs| && kept == Dedup(NonEmpty(cs[..i]))
    requires cs[i] != "" && cs[i] !in kept
    requires limit != 0 && |kept| < Bound(limit) && |kept| + 1 >= limit
    ensures Scan(cs, i, kept, limit) == Capped(Dedup(NonEmpty(cs)), limit)
  {
    DedupStep(cs, i);
    ScanStop(cs, i, kept, limit);
    CappedAtBreak(cs, i + 1, limit);
  }

  /** `extractSolutions` returns the first distinct non-empty candidates, cut at the limit, with their LaTeX. */
  lemma SolutionsMeaning(output: string, limit: int)
    ensures Solutions(output, limit) == Annotate(Capped(Dedup(Candidates(SplitLines(output))), limit))
  {
    var cs := Map(Candidate, SplitLines(output));
    assert cs[..0] == [];
    ScanMeaning(cs, 0, [], limit);
  }

  /** A line whose candidate is empty or already kept leaves the scan unchanged. */
  lemma ScanSkip(cs: seq<string>, i: nat, kept: seq<string>, limit: int)
    requires i < |cs| && (cs[i] == "" || cs[i] in kept)
    ensures Scan(cs, i + 1, kept, limit) == Scan(cs, i, kept, limit)
  {
  }

  /** A new candidate below the limit is kept and the scan goes on. */
  lemma ScanKeep(cs: seq<string>, i: nat, kept: seq<string>, limit: int)
    requires i < |cs| && cs[i] != "" && cs[i] !in kept && !(limit != 0 && |kept| + 1 >= limit)
    ensures Scan(cs, i + 1, kept + [cs[i]], limit) == Scan(cs, i, kept, limit)
  {
  }

  /** A new candidate reaching the limit ends the scan. */
  lemma ScanStop(cs: seq<string>, i: nat, kept: seq<string>, limit: int)
    requires i < |cs| && cs[i] != "" && cs[i] !in kept && limit != 0 && |kept| + 1 >= limit
    ensures Scan(cs, i, kept, limit) == kept + [cs[i]]
  {
  }

  /** The loop body's cleaning of line `i`, kept apart so the loop's proof stays small. */
  method LineCandidate(lines: seq<string>, ghost cs: seq<string>, i: nat) returns (expr: string)
    requires cs == Map(Candidate, lines) && i < |lines|
    ensures expr == cs[i]
  {
    var line := lines[i];
    var idx := LastIndexOf(line, Marker);
    expr := "";
    if idx > 0 {
      var raw := Trim(line[..idx]);
      expr := StripPrompt(raw);
    }
    MapAt(Candidate, lines, i);
    CandidateSteps(line);
  }

  /** `extractSolutions`: scan the lines, keep new non-empty expressions, stop at the limit. */
  method ExtractSolutions(output: string, limit: int) returns (solutions: seq<Solution>)
    ensures solutions == Solutions(output, limit)
  {
    var lines := SplitLines(output);
    solutions := ScanLines(lines, Map(Candidate, lines), limit);
  }

  method ScanLines(lines: seq<string>, ghost cs: seq<string>, limit: int) returns (solutions: seq<Solution>)
    requires cs == Map(Candidate, lines)
    ensures solutions == Annotate(Scan(cs, 0, [], limit))
  {
    solutions := [];
    var seen: set<string> := {};
    ghost var kept: seq<string> := [];
    var i := 0;
    while i < |lines|
      invariant 0 <= i <= |lines|
      invariant Scan(cs, i, kept, limit) == Scan(cs, 0, [], limit)
      invariant seen == Members(kept)
      invariant solutions == Annotate(kept)
    {
      var expr := LineCandidate(lines, cs, i);
      MembersIn(kept, expr);
      if expr != "" && expr !in seen {
        if limit != 0 && |kept| + 1 >= limit {
          ScanStop(cs, i, kept, limit);
        } else {
          ScanKeep(cs, i, kept, limit);
        }
        var latex := RenderInfixToLatex(expr);
        AnnotateSnoc(kept, expr);
        MembersSnoc(kept, expr);
        seen := seen + {expr};
        solutions := solutions + [Solution(expr, latex)];
        kept := kept + [expr];
        if limit != 0 && |solutions| >= limit {
          break;
        }
      } else {
        ScanSkip(cs, i, kept, limit);
      }
      i := i + 1;
    }
  }

  // ---------------------------------------------------------------------
  // What the solutions are
  // ---------------------------------------------------------------------

  /**
   * The solutions are within the limit (one at most for a negative limit),
   * have pairwise different non-empty expressions, and carry the LaTeX
   * rendering of their expression.
   */
  lemma SolutionsShape(output: string, limit: int)
    ensures var sols := Solutions(output, limit);
            && (limit > 0 ==> |sols| <= limit)
            && (limit < 0 ==> |sols| <= 1)
            && (forall i, j :: 0 <= i < j < |sols| ==> sols[i].infix != sols[j].infix)
            && (forall k :: 0 <= k < |sols| ==> sols[k].infix != "" && sols[k].latex == InfixToLatex(sols[k].infix))
  {
    SolutionsMeaning(output, limit);
    var d := Dedup(Candidates(SplitLines(output)));
    var kept := Capped(d, limit);
    forall i, j | 0 <= i < j < |kept|
      ensures kept[i] != kept[j]
    {
      assert kept[i] == d[i] && kept[j] == d[j];
    }
    forall k | 0 <= k < |kept|
      ensures kept[k] != ""
    {
      assert kept[k] == d[k] && d[k] in d;
    }
  }

  /** What is kept comes from the input and is non-empty; without a limit every non-empty string is kept. */
  lemma KeptFrom(cs: seq<string>, limit: int)
    ensures var kept := Capped(Dedup(NonEmpty(cs)), limit);
            && (forall x :: x in kept ==> x in cs && x != "")
            && (limit == 0 ==> forall x :: x in cs && x != "" ==> x in kept)
  {
    var d := Dedup(NonEmpty(cs));
    var kept := Capped(d, limit);
    forall x | x in kept
      ensures x in d
    {
      var k :| 0 <= k < |kept| && kept[k] == x;
      assert kept[k] == d[k];
    }
  }

  /**
   * Every solution is the cleaned expression of some output line, and with
   * limit 0 every line's non-empty cleaned expression is among the solutions.
   */
  lemma SolutionsFromLines(output: string, limit: int)
    ensures var sols := Solutions(output, limit);
            var cs := Map(Candidate, SplitLines(output));
            && (forall k :: 0 <= k < |sols| ==> sols[k].infix in cs)
            && (limit == 0 ==> forall c :: c in cs && c != "" ==> exists k :: 0 <= k < |sols| && sols[k].infix == c)
  {
    var cs := Map(Candidate, SplitLines(output));
    var kept := Capped(Dedup(NonEmpty(cs)), limit);
    SolutionsMeaning(output, limit);
    KeptFrom(cs, limit);
    var sols := Annotate(kept);
    forall k | 0 <= k < |sols|
      ensures sols[k].infix in cs
    {
      assert sols[k].infix == kept[k] && kept[k] in kept;
    }
    if limit == 0 {
      forall c | c in cs && c != ""
        ensures exists k :: 0 <= k < |sols| && sols[k].infix == c
      {
        var k :| 0 <= k < |kept| && kept[k] == c;
        assert sols[k].infix == c;
      }
    }
  }

  // ---------------------------------------------------------------------
  // The browser's parseOutput
  // ---------------------------------------------------------------------

  /**
   * `parseOutput`: split into lines, trim them, drop empty ones, cut each at
   * its last ` = 24` (empty when the marker is missing or opens the line),
   * drop the empty results.
   */
  function ParseOutput(raw: string): seq<string> {
    NonEmpty(Map(BeforeMarker, NonEmpty(Map(Trim, SplitLines(raw)))))
  }

  /** Every entry of `parseOutput` is non-empty and trimmed. */
  lemma ParseOutputClean(raw: string)
    ensures forall x :: x in ParseOutput(raw) ==> x != "" && IsTrimmed(x)
  {
    var ys := NonEmpty(Map(Trim, SplitLines(raw)));
    var zs := Map(BeforeMarker, ys);
    forall x | x in ParseOutput(raw)
      ensures x != "" && IsTrimmed(x)
    {
      assert x in zs;
      var k :| 0 <= k < |zs| && zs[k] == x;
      MapAt(BeforeMarker, ys, k);
    }
  }

  /** Mapping twice is mapping once with the composition. */
  lemma MapMap(f: string -> string, g: string -> string, h: string -> string, xs: seq<string>)
    requires forall k :: 0 <= k < |xs| ==> h(xs[k]) == g(f(xs[k]))
    ensures Map(g, Map(f, xs)) == Map(h, xs)
  {
    assert forall k :: 0 <= k < |xs| ==> Map(g, Map(f, xs))[k] == Map(h, xs)[k];
  }

  /** Trimming the line first does not change its candidate. */
  lemma CandidateTrim(line: string)
    ensures Candidate(Trim(line)) == Candidate(line)
  {
    BeforeMarkerTrim(line);
  }

  /** Cutting at the marker and then cleaning is what the server does to a line. */
  lemma CutThenStrip(kept: seq<string>)
    ensures NonEmpty(Map(StripPrompt, NonEmpty(Map(BeforeMarker, kept)))) == NonEmpty(Map(Candidate, kept))
  {
    StripPromptEmpty();
    NonEmptyMapNonEmpty(StripPrompt, Map(BeforeMarker, kept));
    forall k | 0 <= k < |kept|
      ensures Candidate(kept[k]) == StripPrompt(BeforeMarker(kept[k]))
    {
    }
    MapMap(BeforeMarker, StripPrompt, Candidate, kept);
  }

  /** Trimming the lines and dropping the empty ones first leaves the non-empty candidates alone. */
  lemma TrimThenCandidate(lines: seq<string>)
    ensures NonEmpty(Map(Candidate, NonEmpty(Map(Trim, lines)))) == NonEmpty(Map(Candidate, lines))
  {
    assert Candidate("") == "" by {
      assert BeforeMarker("") == "";
      StripPromptEmpty();
    }
    NonEmptyMapNonEmpty(Candidate, Map(Trim, lines));
    forall k | 0 <= k < |lines|
      ensures Candidate(lines[k]) == Candidate(Trim(lines[k]))
    {
      CandidateTrim(lines[k]);
    }
    MapMap(Trim, Candidate, Candidate, lines);
  }

  /**
   * The server's candidates are the browser's entries after `stripPrompt`,
   * with the empty results dropped: trimming the lines first changes nothing.
   */
  lemma ParseOutputAgrees(raw: string)
    ensures Candidates(SplitLines(raw)) == NonEmpty(Map(StripPrompt, ParseOutput(raw)))
  {
    var lines := SplitLines(raw);
    CutThenStrip(NonEmpty(Map(Trim, lines)));
    TrimThenCandidate(lines);
  }
}
