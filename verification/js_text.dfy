/** The JavaScript string operations the resolvers rely on, with the
    semantics of the ECMAScript built-ins: `indexOf`, `split` with a
    one-character separator, `join`, `trim` and `split(/\s+/)`. */
module JsText {

  /** A code point that ECMAScript counts as WhiteSpace or LineTerminator:
      what `trim` removes and what the regular-expression class `\s` matches. */
  predicate IsWhitespace(c: char) {
    || c == ' '
    || ('\t' <= c <= '\r')
    || c == '\U{A0}'
    || c == '\U{1680}'
    || ('\U{2000}' <= c <= '\U{200A}')
    || c == '\U{2028}' || c == '\U{2029}'
    || c == '\U{202F}' || c == '\U{205F}'
    || c == '\U{3000}' || c == '\U{FEFF}'
  }

  /** The regular-expression class `\w`. */
  predicate IsWordChar(c: char) {
    ('a' <= c <= 'z') || ('A' <= c <= 'Z') || ('0' <= c <= '9') || c == '_'
  }

  predicate IsAsciiLetter(c: char) {
    ('a' <= c <= 'z') || ('A' <= c <= 'Z')
  }

  function AsciiLower(c: char): char {
    if 'A' <= c <= 'Z' then (c as int - 'A' as int + 'a' as int) as char else c
  }

  /** `s` spells the lower-case word `word` in ASCII letters of either case:
      what a regular expression with the `i` flag (and without `u`) accepts
      for `word`, since that flag folds no other letter onto an ASCII one. */
  predicate CaselessLetters(s: string, word: string) {
    |s| == |word| && forall i :: 0 <= i < |s| ==> IsAsciiLetter(s[i]) && AsciiLower(s[i]) == word[i]
  }

  predicate NoWhitespace(w: string) {
    forall i :: 0 <= i < |w| ==> !IsWhitespace(w[i])
  }

  predicate AllWhitespace(w: string) {
    forall i :: 0 <= i < |w| ==> IsWhitespace(w[i])
  }

  // ---------------------------------------------------------------- indexOf

  /** `sub` occurs in `s` starting at position `k`. */
  predicate OccursAt(s: string, sub: string, k: int) {
    0 <= k && k + |sub| <= |s| && s[k..k + |sub|] == sub
  }

  /** `s.indexOf(sub, from)`: the first position at or after `from` where
      `sub` occurs, or -1. */
  function IndexOfFrom(s: string, sub: string, from: nat): (r: int)
    requires from <= |s|
    ensures r == -1 || (from <= r && OccursAt(s, sub, r))
    ensures r >= 0 ==> forall k :: from <= k < r ==> !OccursAt(s, sub, k)
    ensures r == -1 ==> forall k :: from <= k ==> !OccursAt(s, sub, k)
    decreases |s| - from
  {
    if from + |sub| > |s| then -1
    else if s[from..from + |sub|] == sub then from
    else IndexOfFrom(s, sub, from + 1)
  }

  /** `s.indexOf(sub) >= 0`. */
  function Contains(s: string, sub: string): (r: bool)
    ensures r <==> exists k :: OccursAt(s, sub, k)
  {
    IndexOfFrom(s, sub, 0) >= 0
  }

  // ------------------------------------------------------- split and join

  /** `parts.join(sep)`; the empty array joins to the empty string. */
  function Join(parts: seq<string>, sep: string): string {
    if |parts| == 0 then ""
    else if |parts| == 1 then parts[0]
    else parts[0] + sep + Join(parts[1..], sep)
  }

  /** `s.split(sep)` for a one-character separator: the pieces between
      occurrences of `sep`, always at least one (`"".split(":")` is `[""]`). */
  function Split(s: string, sep: char): (parts: seq<string>)
    ensures |parts| >= 1
    ensures forall i :: 0 <= i < |parts| ==> sep !in parts[i]
    decreases |s|
  {
    if s == [] then [""]
    else
      var rest := Split(s[1..], sep);
      if s[0] == sep then [""] + rest
      else [[s[0]] + rest[0]] + rest[1..]
  }

  /** Joining the pieces with the separator gives the string back. */
  lemma {:induction false} JoinSplit(s: string, sep: char)
    ensures Join(Split(s, sep), [sep]) == s
    decreases |s|
  {
    if s != [] {
      JoinSplit(s[1..], sep);
      var rest := Split(s[1..], sep);
      if s[0] == sep {
        assert ([""] + rest)[1..] == rest;
      } else {
        var parts := [[s[0]] + rest[0]] + rest[1..];
        assert parts[1..] == rest[1..];
        assert s == [s[0]] + s[1..];
      }
    }
  }

  /** Splitting at one occurrence of the separator splits each side on its own. */
  lemma {:induction false} SplitAround(a: string, sep: char, b: string)
    ensures Split(a + [sep] + b, sep) == Split(a, sep) + Split(b, sep)
    decreases |a|
  {
    if a == [] {
      assert a + [sep] + b == [sep] + b;
      SplitAtSeparator(sep, b, sep);
    } else {
      SplitAround(a[1..], sep, b);
      SplitAroundStep(a[0], a[1..], sep, b);
      assert a == [a[0]] + a[1..];
      assert a + [sep] + b == [a[0]] + (a[1..] + [sep] + b);
    }
  }

  /** The inductive step of `SplitAround`: one more character in front. */
  lemma SplitAroundStep(c: char, a: string, sep: char, b: string)
    requires Split(a + [sep] + b, sep) == Split(a, sep) + Split(b, sep)
    ensures Split([c] + (a + [sep] + b), sep) == Split([c] + a, sep) + Split(b, sep)
  {
    var x := Split(a, sep);
    var y := Split(b, sep);
    if c == sep {
      SplitAtSeparator(c, a + [sep] + b, sep);
      SplitAtSeparator(c, a, sep);
      assert [""] + (x + y) == ([""] + x) + y;
    } else {
      SplitAtOther(c, a + [sep] + b, sep);
      SplitAtOther(c, a, sep);
      FirstPieceAppend([c], x, y);
    }
  }

  /** A leading separator starts a new, empty piece. */
  lemma SplitAtSeparator(c: char, t: string, sep: char)
    requires c == sep
    ensures Split([c] + t, sep) == [""] + Split(t, sep)
  {
    assert ([c] + t)[1..] == t;
  }

  /** Any other leading character joins the first piece. */
  lemma SplitAtOther(c: char, t: string, sep: char)
    requires c != sep
    ensures var rest := Split(t, sep);
            Split([c] + t, sep) == [[c] + rest[0]] + rest[1..]
  {
    assert ([c] + t)[0] == c && ([c] + t)[1..] == t;
  }

  lemma FirstPieceAppend(h: string, x: seq<string>, y: seq<string>)
    requires |x| >= 1
    ensures [h + (x + y)[0]] + (x + y)[1..] == ([h + x[0]] + x[1..]) + y
  {
    assert (x + y)[0] == x[0] && (x + y)[1..] == x[1..] + y;
  }

  /** A string without the separator is one piece. */
  lemma {:induction false} SplitWithoutSeparator(s: string, sep: char)
    requires sep !in s
    ensures Split(s, sep) == [s]
    decreases |s|
  {
    if s != [] {
      SplitWithoutSeparator(s[1..], sep);
      assert s == [s[0]] + s[1..];
    }
  }

  /** The other half of the round trip: joining pieces free of the separator
      and splitting again gives the pieces back. */
  lemma {:induction false} SplitJoin(parts: seq<string>, sep: char)
    requires |parts| >= 1
    requires forall i :: 0 <= i < |parts| ==> sep !in parts[i]
    ensures Split(Join(parts, [sep]), sep) == parts
    decreases |parts|
  {
    if |parts| == 1 {
      SplitWithoutSeparator(parts[0], sep);
    } else {
      SplitJoin(parts[1..], sep);
      SplitWithoutSeparator(parts[0], sep);
      SplitAround(parts[0], sep, Join(parts[1..], [sep]));
      assert parts == [parts[0]] + parts[1..];
    }
  }

  lemma {:induction false} JoinLast(parts: seq<string>, sep: string)
    requires |parts| >= 2
    ensures Join(parts, sep) == Join(parts[..|parts| - 1], sep) + sep + parts[|parts| - 1]
    decreases |parts|
  {
    if |parts| > 2 {
      JoinLast(parts[1..], sep);
      assert parts[1..][..|parts| - 2] == parts[..|parts| - 1][1..];
    }
  }

  /** `s.split(sep)` followed by taking the last element
      (`parts[parts.length - 1]`): the text after the last separator, or all
      of `s` when there is none. */
  function LastSegment(s: string, sep: char): (r: string)
    ensures sep !in r
    ensures |r| <= |s| && r == s[|s| - |r|..]
    ensures |r| < |s| ==> s[|s| - |r| - 1] == sep
  {
    var parts := Split(s, sep);
    JoinSplit(s, sep);
    if |parts| >= 2 then JoinLast(parts, [sep]); parts[|parts| - 1]
    else parts[0]
  }

  /** What follows the last separator is the last segment. */
  lemma LastSegmentAfter(a: string, sep: char, b: string)
    requires sep !in b
    ensures LastSegment(a + [sep] + b, sep) == b
  {
    SplitAround(a, sep, b);
    SplitWithoutSeparator(b, sep);
  }

  /** A string without the separator is its own last segment. */
  lemma LastSegmentWhole(s: string, sep: char)
    requires sep !in s
    ensures LastSegment(s, sep) == s
  {
    SplitWithoutSeparator(s, sep);
  }

  // ----------------------------------------------------------------- trim

  /** `s.trimStart()`. */
  function TrimStart(s: string): (r: string)
    ensures |r| <= |s| && r == s[|s| - |r|..]
    ensures r == [] || !IsWhitespace(r[0])
    ensures AllWhitespace(s[..|s| - |r|])
    decreases |s|
  {
    if s == [] || !IsWhitespace(s[0]) then s
    else
      var r := TrimStart(s[1..]);
      assert s[|s| - |r|..] == s[1..][|s| - 1 - |r|..];
      assert s[..|s| - |r|] == [s[0]] + s[1..][..|s| - 1 - |r|];
      r
  }

  /** `s.trimEnd()`. */
  function TrimEnd(s: string): (r: string)
    ensures |r| <= |s| && r == s[..|r|]
    ensures r == [] || !IsWhitespace(r[|r| - 1])
    ensures AllWhitespace(s[|r|..])
    decreases |s|
  {
    if s == [] || !IsWhitespace(s[|s| - 1]) then s
    else
      var r := TrimEnd(s[..|s| - 1]);
      assert s[|r|..] == s[..|s| - 1][|r|..] + [s[|s| - 1]];
      r
  }

  /** `s.trim()`: what is left after whitespace is removed at both ends;
      empty exactly when `s` is all whitespace. */
  function Trim(s: string): (r: string)
    ensures r == [] <==> AllWhitespace(s)
    ensures r != [] ==> !IsWhitespace(r[0]) && !IsWhitespace(r[|r| - 1])
  {
    TrimBlank(s);
    TrimKeepsLast(s);
    TrimStart(TrimEnd(s))
  }

  /** Trimming both ends leaves nothing exactly when the text is all whitespace. */
  lemma TrimBlank(s: string)
    ensures TrimStart(TrimEnd(s)) == [] <==> AllWhitespace(s)
  {
    var e := TrimEnd(s);
    if TrimStart(e) == [] {
      assert e == [] by {
        assert e[..|e|] == e;
      }
      assert s[|e|..] == s;
    }
    if e != [] {
      assert e[|e| - 1] == s[|e| - 1];
    }
  }

  /** Trimming the start of a text that ends in non-whitespace keeps that end. */
  lemma TrimKeepsLast(s: string)
    ensures var e := TrimEnd(s);
            var r := TrimStart(e);
            r != [] ==> r[|r| - 1] == e[|e| - 1]
  {
  }

  /** A string that already starts and ends with non-whitespace is unchanged by trimming. */
  lemma TrimUnchanged(s: string)
    requires s != [] && !IsWhitespace(s[0]) && !IsWhitespace(s[|s| - 1])
    ensures Trim(s) == s
  {
  }

  // -------------------------------------------------------- split(/\s+/)

  /** `s.split(/\s+/)`: the pieces between maximal runs of whitespace; a
      leading or trailing run gives an empty first or last piece. */
  function SplitOnWhitespace(s: string): (parts: seq<string>)
    ensures |parts| >= 1
    ensures forall i :: 0 <= i < |parts| ==> NoWhitespace(parts[i])
    decreases |s|
  {
    if s == [] then [""]
    else if IsWhitespace(s[0]) then [""] + SplitOnWhitespace(SkipWhitespace(s[1..]))
    else
      var rest := SplitOnWhitespace(s[1..]);
      [[s[0]] + rest[0]] + rest[1..]
  }

  /** What follows the leading run of whitespace. */
  function SkipWhitespace(s: string): (r: string)
    ensures |r| <= |s|
  {
    if s == [] || !IsWhitespace(s[0]) then s else SkipWhitespace(s[1..])
  }

  /** `s.trim().split(/\s+/)`: the whitespace-separated tokens of a line;
      a blank line gives the single token `""`. */
  function Tokens(s: string): (cols: seq<string>)
    ensures |cols| >= 1
    ensures AllWhitespace(s) ==> cols == [""]
  {
    SplitOnWhitespace(Trim(s))
  }

  /** The tokens of a line that a process listing prints: non-empty, no whitespace. */
  predicate IsTokenList(ts: seq<string>) {
    forall i :: 0 <= i < |ts| ==> ts[i] != "" && NoWhitespace(ts[i])
  }

  lemma {:induction false} SplitOnWhitespacePrefix(w: string, t: string)
    requires NoWhitespace(w)
    ensures var x := SplitOnWhitespace(t);
            SplitOnWhitespace(w + t) == [w + x[0]] + x[1..]
    decreases |w|
  {
    var x := SplitOnWhitespace(t);
    if w != [] {
      var s := w + t;
      assert s[0] == w[0] && !IsWhitespace(s[0]);
      assert s[1..] == w[1..] + t;
      SplitOnWhitespacePrefix(w[1..], t);
      assert [w[0]] + (w[1..] + x[0]) == w + x[0];
    } else {
      assert w + t == t;
      assert w + x[0] == x[0];
      assert [x[0]] + x[1..] == x;
    }
  }

  /** Tokens with a run of separating text between each two:
      `ts[0] + seps[0] + ts[1] + … + ts[|ts| - 1]`. */
  function Interleave(ts: seq<string>, seps: seq<string>): string
    requires |ts| >= 1 && |seps| == |ts| - 1
    decreases |ts|
  {
    if |ts| == 1 then ts[0] else ts[0] + seps[0] + Interleave(ts[1..], seps[1..])
  }

  /** Separators that `/\s+/` splits at: non-empty runs of whitespace. */
  predicate IsSeparatorList(seps: seq<string>) {
    forall k :: 0 <= k < |seps| ==> seps[k] != "" && AllWhitespace(seps[k])
  }

  /** Skipping a run of whitespace stops where the run ends. */
  lemma {:induction false} SkipRun(run: string, rest: string)
    requires AllWhitespace(run) && (rest == [] || !IsWhitespace(rest[0]))
    ensures SkipWhitespace(run + rest) == rest
    decreases |run|
  {
    if run == [] {
      assert run + rest == rest;
    } else {
      var s := run + rest;
      assert s[0] == run[0] && s[1..] == run[1..] + rest;
      SkipRun(run[1..], rest);
    }
  }

  /** A run of whitespace before a text that starts with non-whitespace
      only adds an empty first piece. */
  lemma SplitAfterRun(run: string, rest: string)
    requires run != [] && AllWhitespace(run)
    requires rest != [] && !IsWhitespace(rest[0])
    ensures SplitOnWhitespace(run + rest) == [""] + SplitOnWhitespace(rest)
  {
    var s := run + rest;
    assert s[0] == run[0] && s[1..] == run[1..] + rest;
    SkipRun(run[1..], rest);
  }

  /** A token, a run of whitespace and a text that starts with
      non-whitespace split into the token followed by the pieces of that
      text. */
  lemma TokenThenRun(w: string, run: string, rest: string)
    requires NoWhitespace(w) && run != [] && AllWhitespace(run)
    requires rest != [] && !IsWhitespace(rest[0])
    ensures SplitOnWhitespace(w + run + rest) == [w] + SplitOnWhitespace(rest)
  {
    var t := run + rest;
    var x := SplitOnWhitespace(t);
    SplitAfterRun(run, rest);
    assert x[0] == "" && x[1..] == SplitOnWhitespace(rest);
    SplitOnWhitespacePrefix(w, t);
    assert w + run + rest == w + t;
    assert w + x[0] == w;
  }

  lemma {:induction false} InterleaveEnds(ts: seq<string>, seps: seq<string>)
    requires |ts| >= 1 && |seps| == |ts| - 1 && IsTokenList(ts)
    ensures var j := Interleave(ts, seps);
            j != [] && !IsWhitespace(j[0]) && !IsWhitespace(j[|j| - 1])
    decreases |ts|
  {
    if |ts| > 1 {
      InterleaveEnds(ts[1..], seps[1..]);
    }
  }

  /** Tokens separated by runs of whitespace split back into the same
      tokens, whatever the runs are. */
  lemma {:induction false} SplitOnWhitespaceInterleave(ts: seq<string>, seps: seq<string>)
    requires |ts| >= 1 && |seps| == |ts| - 1 && IsTokenList(ts) && IsSeparatorList(seps)
    ensures SplitOnWhitespace(Interleave(ts, seps)) == ts
    decreases |ts|
  {
    if |ts| == 1 {
      SplitOnWhitespacePrefix(ts[0], "");
      assert ts[0] + "" == ts[0];
    } else {
      var rest := Interleave(ts[1..], seps[1..]);
      InterleaveEnds(ts[1..], seps[1..]);
      SplitOnWhitespaceInterleave(ts[1..], seps[1..]);
      TokenThenRun(ts[0], seps[0], rest);
      assert Interleave(ts, seps) == ts[0] + seps[0] + rest;
      assert ts == [ts[0]] + ts[1..];
    }
  }

  /** `trimStart` removes exactly the whitespace before a text that starts
      with non-whitespace. */
  lemma {:induction false} TrimStartPadded(lead: string, j: string)
    requires AllWhitespace(lead) && j != [] && !IsWhitespace(j[0])
    ensures TrimStart(lead + j) == j
    decreases |lead|
  {
    if lead == [] {
      assert lead + j == j;
    } else {
      var s := lead + j;
      assert s[0] == lead[0] && s[1..] == lead[1..] + j;
      TrimStartPadded(lead[1..], j);
    }
  }

  /** `trimEnd` removes exactly the whitespace after a text that ends with
      non-whitespace. */
  lemma {:induction false} TrimEndPadded(j: string, trail: string)
    requires AllWhitespace(trail) && j != [] && !IsWhitespace(j[|j| - 1])
    ensures TrimEnd(j + trail) == j
    decreases |trail|
  {
    if trail == [] {
      assert j + trail == j;
    } else {
      var s := j + trail;
      var shorter := trail[..|trail| - 1];
      assert s[|s| - 1] == trail[|trail| - 1];
      assert s[..|s| - 1] == j + shorter;
      TrimEndPadded(j, shorter);
    }
  }

  /** `trim` removes exactly the whitespace around a text that starts and
      ends with non-whitespace. */
  lemma TrimPadded(lead: string, j: string, trail: string)
    requires AllWhitespace(lead) && AllWhitespace(trail)
    requires j != [] && !IsWhitespace(j[0]) && !IsWhitespace(j[|j| - 1])
    ensures Trim(lead + j + trail) == j
  {
    var lj := lead + j;
    assert lj[|lj| - 1] == j[|j| - 1];
    TrimEndPadded(lj, trail);
    TrimStartPadded(lead, j);
  }

  /** The tokens of a line laid out as whitespace, tokens separated by runs
      of whitespace, and whitespace are exactly those tokens. */
  lemma TokensOfPadded(lead: string, ts: seq<string>, seps: seq<string>, trail: string)
    requires AllWhitespace(lead) && AllWhitespace(trail)
    requires |ts| >= 1 && |seps| == |ts| - 1 && IsTokenList(ts) && IsSeparatorList(seps)
    ensures Tokens(lead + Interleave(ts, seps) + trail) == ts
  {
    var j := Interleave(ts, seps);
    InterleaveEnds(ts, seps);
    TrimPadded(lead, j, trail);
    SplitOnWhitespaceInterleave(ts, seps);
  }

  /** Token lists concatenate to a token list. */
  lemma TokenListConcat(a: seq<string>, b: seq<string>)
    requires IsTokenList(a) && IsTokenList(b)
    ensures IsTokenList(a + b)
  {
    forall i | 0 <= i < |a + b|
      ensures (a + b)[i] != "" && NoWhitespace((a + b)[i])
    {
      if i < |a| {
        assert (a + b)[i] == a[i];
      } else {
        assert (a + b)[i] == b[i - |a|];
      }
    }
  }

  /** Tokens separated by text free of line breaks hold no line break. */
  lemma {:induction false} InterleaveOneLine(ts: seq<string>, seps: seq<string>)
    requires |ts| >= 1 && |seps| == |ts| - 1 && IsTokenList(ts)
    requires forall k :: 0 <= k < |seps| ==> '\n' !in seps[k]
    ensures '\n' !in Interleave(ts, seps)
    decreases |ts|
  {
    assert IsWhitespace('\n');
    assert '\n' !in ts[0];
    if |ts| > 1 {
      InterleaveOneLine(ts[1..], seps[1..]);
    }
  }
}
