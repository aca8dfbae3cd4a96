/**
 * Shared vocabulary of the text pipeline: failure-compatible result types,
 * the character classes used by the lexer, by `String.prototype.trim` and by
 * the regular expressions of the web layer, and the string searches
 * (`trim`, `lastIndexOf`, `split(/\r?\n/)`) the scraping code relies on.
 */
module Base {

  datatype Option<+T> = None | Some(value: T)

  /** What a JavaScript function either returns or throws. */
  datatype Result<+T, +E> = Ok(value: T) | Err(error: E) {
    predicate IsFailure() { Err? }
    function PropagateFailure<U>(): Result<U, E>
      requires Err?
    {
      Err(error)
    }
    function Extract(): T
      requires Ok?
    {
      value
    }
  }

  /** `/[0-9]/` */
  predicate IsDigit(c: char) { '0' <= c <= '9' }

  /** `/[a-z]/i`: an ASCII letter of either case. */
  predicate IsAlpha(c: char) { 'a' <= c <= 'z' || 'A' <= c <= 'Z' }

  /** The four characters the infix lexer skips. */
  predicate IsBlank(c: char) { c == ' ' || c == '\t' || c == '\r' || c == '\n' }

  /**
   * ECMAScript WhiteSpace and LineTerminator: what `trim` removes and what the
   * regular-expression class `\s` matches.
   */
  predicate IsSpace(c: char) {
    || c == '\t' || c == '\n' || c == '\U{000B}' || c == '\U{000C}' || c == '\r'
    || c == ' ' || c == '\U{00A0}' || c == '\U{1680}'
    || ('\U{2000}' <= c <= '\U{200A}')
    || c == '\U{2028}' || c == '\U{2029}' || c == '\U{202F}' || c == '\U{205F}'
    || c == '\U{3000}' || c == '\U{FEFF}'
  }

  predicate AllSpace(s: string) { forall k :: 0 <= k < |s| ==> IsSpace(s[k]) }

  /** No space at either end (the shape of every `trim` result). */
  predicate IsTrimmed(s: string) { s == [] || (!IsSpace(s[0]) && !IsSpace(s[|s| - 1])) }

  predicate IsSuffix(r: string, s: string) { |r| <= |s| && r == s[|s| - |r|..] }

  predicate StartsWith(s: string, p: string) { |p| <= |s| && s[..|p|] == p }

  /** Number of leading spaces. */
  function Lead(s: string): (n: nat)
    ensures n <= |s|
    ensures AllSpace(s[..n])
    ensures n < |s| ==> !IsSpace(s[n])
  {
    if s != [] && IsSpace(s[0]) then
      var m := Lead(s[1..]);
      assert s[..m + 1] == [s[0]] + s[1..][..m];
      m + 1
    else 0
  }

  /** The suffix of `s` left once its leading spaces are removed. */
  function TrimStart(s: string): (r: string)
    ensures r == s[Lead(s)..]
    ensures r == [] || !IsSpace(r[0])
  {
    s[Lead(s)..]
  }

  /** Number of trailing spaces. */
  function Trail(s: string): (n: nat)
    ensures n <= |s|
    ensures AllSpace(s[|s| - n..])
    ensures n < |s| ==> !IsSpace(s[|s| - n - 1])
  {
    if s != [] && IsSpace(s[|s| - 1]) then
      var m := Trail(s[..|s| - 1]);
      SpacesThenSpace(s, m);
      m + 1
    else 0
  }

  /** Trailing spaces of the text without its last character, then a last space. */
  lemma SpacesThenSpace(s: string, m: nat)
    requires s != [] && m < |s| && IsSpace(s[|s| - 1])
    requires AllSpace(s[..|s| - 1][|s| - 1 - m..])
    ensures AllSpace(s[|s| - (m + 1)..])
  {
    var t := s[|s| - (m + 1)..];
    forall k | 0 <= k < |t|
      ensures IsSpace(t[k])
    {
      if k < m {
        assert t[k] == s[..|s| - 1][|s| - 1 - m..][k];
      }
    }
  }

  /**
   * `String.prototype.trim`: the middle of `s` once the leading and trailing
   * spaces are removed; everything removed is a space.
   */
  function Trim(s: string): (r: string)
    ensures IsTrimmed(r)
    ensures Lead(s) + |r| <= |s| && r == s[Lead(s)..Lead(s) + |r|]
    ensures AllSpace(s[..Lead(s)]) && AllSpace(s[Lead(s) + |r|..])
  {
    var a := Lead(s);
    var t := s[a..];
    var b := Trail(t);
    var r := t[..|t| - b];
    assert r == s[a..a + |r|];
    assert s[a + |r|..] == t[|t| - b..];
    r
  }

  /** An occurrence of `pat` starts at index `k` of `s`. */
  predicate OccursAt(s: string, pat: string, k: int) {
    0 <= k && k + |pat| <= |s| && s[k..k + |pat|] == pat
  }

  function LastIndexOfFrom(s: string, pat: string, k: int): (r: int)
    requires k <= |s| - |pat|
    ensures r == -1 || 0 <= r <= k
    ensures r >= 0 ==> OccursAt(s, pat, r)
    ensures forall m :: r < m <= k ==> !OccursAt(s, pat, m)
    decreases k + 1
  {
    if k < 0 then -1
    else if s[k..k + |pat|] == pat then k
    else LastIndexOfFrom(s, pat, k - 1)
  }

  /**
   * `String.prototype.lastIndexOf`: the start of the last occurrence of `pat`
   * in `s`, or -1 when there is none.
   */
  function LastIndexOf(s: string, pat: string): (r: int)
    ensures r == -1 || 0 <= r <= |s| - |pat|
    ensures r >= 0 ==> OccursAt(s, pat, r)
    ensures forall m :: r < m ==> !OccursAt(s, pat, m)
  {
    LastIndexOfFrom(s, pat, |s| - |pat|)
  }

  /** `s.split(/\r?\n/)`: a line break is LF or CR LF; a lone CR stays in its line. */
  function SplitLines(s: string): (lines: seq<string>)
    ensures |lines| >= 1
    ensures forall k :: 0 <= k < |lines| ==> '\n' !in lines[k]
  {
    if s == [] then [""]
    else if s[0] == '\n' then [""] + SplitLines(s[1..])
    else if |s| >= 2 && s[0] == '\r' && s[1] == '\n' then [""] + SplitLines(s[2..])
    else
      var rest := SplitLines(s[1..]);
      [[s[0]] + rest[0]] + rest[1..]
  }

  /** The lines joined back with LF separators. */
  function JoinLines(lines: seq<string>): string
    requires |lines| >= 1
  {
    if |lines| == 1 then lines[0] else lines[0] + "\n" + JoinLines(lines[1..])
  }

  /** Without CR characters the split loses nothing: joining the lines gives the text back. */
  lemma {:induction false} SplitLinesJoin(s: string)
    requires '\r' !in s
    ensures JoinLines(SplitLines(s)) == s
  {
    if s == [] {
    } else if s[0] == '\n' {
      assert '\r' !in s[1..] by { assert forall c :: c in s[1..] ==> c in s; }
      SplitLinesJoin(s[1..]);
    } else {
      assert '\r' !in s[1..] by { assert forall c :: c in s[1..] ==> c in s; }
      SplitLinesJoin(s[1..]);
      var rest := SplitLines(s[1..]);
      if |rest| == 1 {
      } else {
        assert ([[s[0]] + rest[0]] + rest[1..])[1..] == rest[1..];
        assert s == [s[0]] + s[1..];
      }
    }
  }

  /** The lines joined back with CR LF separators, as a Windows program writes them. */
  function JoinCrLf(lines: seq<string>): string
    requires |lines| >= 1
  {
    if |lines| == 1 then lines[0] else lines[0] + "\r\n" + JoinCrLf(lines[1..])
  }

  /** A text without LF is one line, whatever CR characters it holds. */
  lemma {:induction false} SplitLinesOne(x: string)
    requires '\n' !in x
    ensures SplitLines(x) == [x]
  {
    if x != [] {
      assert '\n' !in x[1..] by { assert forall c :: c in x[1..] ==> c in x; }
      SplitLinesOne(x[1..]);
      assert !(|x| >= 2 && x[0] == '\r' && x[1] == '\n') by { assert |x| >= 2 ==> x[1] in x; }
      assert x == [x[0]] + x[1..];
    }
  }

  /** A CR LF ends the line in front of it, and neither character is kept. */
  lemma {:induction false} SplitLinesCrLf(x: string, rest: string)
    requires '\n' !in x
    ensures SplitLines(x + "\r\n" + rest) == [x] + SplitLines(rest)
  {
    var s := x + "\r\n" + rest;
    if x == [] {
      assert s[2..] == rest;
    } else {
      assert '\n' !in x[1..] by { assert forall c :: c in x[1..] ==> c in x; }
      SplitLinesCrLf(x[1..], rest);
      assert s[1..] == x[1..] + "\r\n" + rest;
      assert s[0] == x[0] && x[0] != '\n' by { assert x[0] in x; }
      assert s[1] != '\n' by {
        if |x| >= 2 { assert s[1] == x[1] && x[1] in x; } else { assert s[1] == '\r'; }
      }
      assert [x[0]] + x[1..] == x;
    }
  }

  /**
   * Lines without LF, written with CR LF separators, split back into the
   * same lines: `/\r?\n/` takes each CR LF as one break, and a CR anywhere
   * else stays in its line.
   */
  lemma {:induction false} SplitLinesJoinCrLf(lines: seq<string>)
    requires |lines| >= 1 && forall k :: 0 <= k < |lines| ==> '\n' !in lines[k]
    ensures SplitLines(JoinCrLf(lines)) == lines
  {
    if |lines| == 1 {
      SplitLinesOne(lines[0]);
    } else {
      SplitLinesJoinCrLf(lines[1..]);
      SplitLinesCrLf(lines[0], JoinCrLf(lines[1..]));
      assert [lines[0]] + lines[1..] == lines;
    }
  }

  /** A slice of a slice is a slice of the whole. */
  lemma SliceOfSlice(s: string, a: nat, b: nat, m: nat, n: nat)
    requires a <= b <= |s| && m <= n <= b - a
    ensures s[a..b][m..n] == s[a + m..a + n]
  {
    assert forall k :: 0 <= k < n - m ==> s[a..b][m..n][k] == s[a + m..a + n][k];
  }

  /** `trim` leaves an already trimmed string alone. */
  lemma TrimTrimmed(s: string)
    requires IsTrimmed(s)
    ensures Trim(s) == s
  {
    assert Lead(s) == 0;
    assert Trail(s) == 0;
  }

  /** Leading spaces in front of `x` make no difference to `trim`. */
  lemma {:induction false} LeadAfterSpaces(p: string, x: string)
    requires AllSpace(p)
    ensures Lead(p + x) == |p| + Lead(x)
  {
    if p != [] {
      assert (p + x)[1..] == p[1..] + x;
      LeadAfterSpaces(p[1..], x);
    } else {
      assert p + x == x;
    }
  }

  /** `trim` is the text after the leading spaces, without its trailing spaces. */
  lemma TrimFromRest(s: string)
    ensures var t := s[Lead(s)..]; Trim(s) == t[..|t| - Trail(t)]
  {
  }

  /** A text whose last character is not a space keeps its end when trimmed. */
  lemma NonSpaceEnd(s: string)
    requires s != [] && !IsSpace(s[|s| - 1])
    ensures Lead(s) < |s|
    ensures Trim(s) == s[Lead(s)..]
  {
    LeadBeforeEnd(s);
    var a, r := Lead(s), Trim(s);
    SpaceTailEnd(s, a + |r|);
    SliceToEnd(s, a, r);
  }

  /** A slice that reaches the end of the text is the whole suffix. */
  lemma SliceToEnd(s: string, a: nat, r: string)
    requires a + |r| == |s| && r == s[a..a + |r|]
    ensures r == s[a..]
  {
  }

  /** A nonempty all-space tail ends the text in a space. */
  lemma SpaceTailEnd(s: string, j: nat)
    requires j <= |s| && AllSpace(s[j..])
    ensures j < |s| ==> IsSpace(s[|s| - 1])
  {
    if j < |s| {
      assert s[j..][|s| - 1 - j] == s[|s| - 1];
    }
  }

  /** A text that does not end in a space has fewer leading spaces than characters. */
  lemma LeadBeforeEnd(s: string)
    requires s != [] && !IsSpace(s[|s| - 1])
    ensures Lead(s) < |s|
  {
    SpaceHead(s, Lead(s));
  }

  /** An all-space head that is the whole text ends it in a space. */
  lemma SpaceHead(s: string, m: nat)
    requires m <= |s| && AllSpace(s[..m])
    ensures m == |s| && s != [] ==> IsSpace(s[|s| - 1])
  {
    if m == |s| && s != [] {
      assert s[..m][|s| - 1] == s[|s| - 1];
    }
  }

  lemma DropPrefix(p: string, x: string, n: nat)
    requires n <= |x|
    ensures (p + x)[|p| + n..] == x[n..]
  {
  }

  lemma TrimAfterSpaces(p: string, x: string)
    requires AllSpace(p)
    ensures Trim(p + x) == Trim(x)
  {
    LeadAfterSpaces(p, x);
    DropPrefix(p, x, Lead(x));
    TrimFromRest(p + x);
    TrimFromRest(x);
  }

  /** A string of spaces trims to nothing. */
  lemma TrimAllSpace(s: string)
    requires AllSpace(s)
    ensures Trim(s) == ""
  {
    TrimAfterSpaces(s, "");
    assert s + "" == s;
  }

  /** `lastIndexOf` is pinned down by its two properties. */
  lemma LastIndexOfUnique(s: string, pat: string, r: int)
    requires r == -1 || OccursAt(s, pat, r)
    requires forall m :: r < m ==> !OccursAt(s, pat, m)
    ensures LastIndexOf(s, pat) == r
  {
    var q := LastIndexOf(s, pat);
    assert q <= r;
    assert r <= q;
  }

  /** When `s` starts with `m` non-space characters, `trim` keeps them at the front. */
  lemma TrimKeepsFront(s: string, m: nat)
    requires 1 <= m <= |s| && forall j :: 0 <= j < m ==> !IsSpace(s[j])
    ensures |Trim(s)| >= m && Trim(s)[..m] == s[..m]
  {
    assert Lead(s) == 0;
    var r := Trim(s);
    assert forall j :: Lead(s) + |r| <= j < |s| ==> IsSpace(s[j]) by {
      forall j | Lead(s) + |r| <= j < |s|
        ensures IsSpace(s[j])
      {
        assert s[Lead(s) + |r|..][j - Lead(s) - |r|] == s[j];
      }
    }
    assert |r| < |s| ==> IsSpace(s[|r|]);
    assert r == s[..|r|];
  }
}
