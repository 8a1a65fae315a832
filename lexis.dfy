/**
 * Character classes and the string operations the highlighter borrows from
 * JavaScript: `trim`, `toUpperCase`, `indexOf`, `split("\n")`, and
 * `split(/(\s+)/)` followed by `join("")`.
 */
module Lexis {
  import opened Seqs

  /** What JavaScript's `\s` matches and what `String.prototype.trim` removes. */
  predicate IsWhitespace(c: char) {
    c == ' ' || c == '\t' || c == '\n' || c == '\U{B}' || c == '\U{C}' || c == '\r'
    || c == '\U{A0}' || c == '\U{1680}' || ('\U{2000}' <= c <= '\U{200A}')
    || c == '\U{2028}' || c == '\U{2029}' || c == '\U{202F}' || c == '\U{205F}'
    || c == '\U{3000}' || c == '\U{FEFF}'
  }

  /** The characters a regular-expression `.` does not match. */
  predicate IsLineTerminator(c: char) {
    c == '\n' || c == '\r' || c == '\U{2028}' || c == '\U{2029}'
  }

  predicate IsDigit(c: char) {
    '0' <= c <= '9'
  }

  /** The characters `\b` treats as word characters. */
  predicate IsWordChar(c: char) {
    'a' <= c <= 'z' || 'A' <= c <= 'Z' || IsDigit(c) || c == '_'
  }

  predicate IsQuote(c: char) {
    c == '\'' || c == '"'
  }

  predicate AllWhitespace(s: string) {
    forall i :: 0 <= i < |s| ==> IsWhitespace(s[i])
  }

  predicate NoWhitespace(s: string) {
    forall i :: 0 <= i < |s| ==> !IsWhitespace(s[i])
  }

  predicate AllDigits(s: string) {
    forall i :: 0 <= i < |s| ==> IsDigit(s[i])
  }

  // ---------------------------------------------------------------------------
  // Case

  /** Upper-casing of one character; only the ASCII letters change. */
  function UpperChar(c: char): (u: char)
    ensures !('a' <= u <= 'z')
    ensures 'a' <= c <= 'z' ==> u as int == c as int - 32
    ensures !('a' <= c <= 'z') ==> u == c
    ensures IsWordChar(u) <==> IsWordChar(c)
    ensures IsDigit(u) <==> IsDigit(c)
    ensures IsQuote(u) <==> IsQuote(c)
    ensures IsWhitespace(u) <==> IsWhitespace(c)
  {
    if 'a' <= c <= 'z' then (c as int - 32) as char else c
  }

  function Upper(s: string): string {
    seq(|s|, i requires 0 <= i < |s| => UpperChar(s[i]))
  }

  /** An upper-cased string is its own upper-case form. */
  lemma UpperIdempotent(s: string)
    ensures Upper(Upper(s)) == Upper(s)
  {
  }

  /** Upper-casing commutes with taking a slice. */
  lemma UpperSlice(s: string, i: nat, j: nat)
    requires i <= j <= |s|
    ensures Upper(s[i..j]) == Upper(s)[i..j]
  {
  }

  // ---------------------------------------------------------------------------
  // trim

  /** `trimStart`: the suffix left after dropping the leading whitespace. */
  function TrimStart(s: string): (r: string)
    ensures |r| <= |s| && r == s[|s| - |r|..]
    ensures AllWhitespace(s[..|s| - |r|])
    ensures r != [] ==> !IsWhitespace(r[0])
  {
    if |s| > 0 && IsWhitespace(s[0]) then
      var r := TrimStart(s[1..]);
      assert s[..|s| - |r|] == [s[0]] + s[1..][..|s| - 1 - |r|];
      r
    else s
  }

  /** `trimEnd`: the prefix left after dropping the trailing whitespace. */
  function TrimEnd(s: string): (r: string)
    ensures |r| <= |s| && r == s[..|r|]
    ensures AllWhitespace(s[|r|..])
    ensures r != [] ==> !IsWhitespace(r[|r| - 1])
  {
    if |s| > 0 && IsWhitespace(s[|s| - 1]) then
      var p := s[..|s| - 1];
      var r := TrimEnd(p);
      assert s[|r|..] == p[|r|..] + [s[|s| - 1]];
      assert p[..|r|] == s[..|r|];
      r
    else s
  }

  /**
   * `trim()`: the middle of `s` with the whitespace at both ends removed;
   * what is left neither starts nor ends with whitespace.
   */
  function Trim(s: string): (r: string)
    ensures exists i: nat :: i + |r| <= |s| && s[i..i + |r|] == r
              && AllWhitespace(s[..i]) && AllWhitespace(s[i + |r|..])
    ensures r != [] ==> !IsWhitespace(r[0]) && !IsWhitespace(r[|r| - 1])
  {
    var t := TrimStart(s);
    var r := TrimEnd(t);
    TrimmedMiddle(s, t, r);
    r
  }

  /** The two trims leave the middle of `s`, between two whitespace runs. */
  lemma TrimmedMiddle(s: string, t: string, r: string)
    requires |t| <= |s| && t == s[|s| - |t|..] && AllWhitespace(s[..|s| - |t|])
    requires |r| <= |t| && r == t[..|r|] && AllWhitespace(t[|r|..])
    ensures exists i: nat :: i + |r| <= |s| && s[i..i + |r|] == r
              && AllWhitespace(s[..i]) && AllWhitespace(s[i + |r|..])
  {
    var i := |s| - |t|;
    assert s[i..i + |r|] == t[..|r|];
    assert s[i + |r|..] == t[|r|..];
  }

  /** A string trims to nothing exactly when every character is whitespace. */
  lemma TrimEmptyIff(s: string)
    ensures Trim(s) == [] <==> AllWhitespace(s)
  {
    var t := TrimStart(s);
    if Trim(s) == [] {
      assert AllWhitespace(t[0..]);
      assert s == s[..|s| - |t|] + t;
    }
  }

  predicate StartsWith(s: string, prefix: string) {
    |prefix| <= |s| && s[..|prefix|] == prefix
  }

  /** The first `k` characters of `s` are all whitespace. */
  predicate LeadingBlank(s: string, k: nat) {
    k <= |s| && AllWhitespace(s[..k])
  }

  /** `--` after a run of leading whitespace. */
  predicate DashesAfterBlank(s: string, k: nat) {
    LeadingBlank(s, k) && k + 2 <= |s| && s[k] == '-' && s[k + 1] == '-'
  }

  /**
   * A string whose trimmed form starts with `--` is exactly one where `--`
   * follows a run of leading whitespace.
   */
  lemma TrimStartsWithDashes(s: string)
    ensures StartsWith(Trim(s), "--") <==> exists k: nat :: DashesAfterBlank(s, k)
  {
    if StartsWith(Trim(s), "--") {
      TrimmedDashes(s);
    }
    if exists k: nat :: DashesAfterBlank(s, k) {
      var k: nat :| DashesAfterBlank(s, k);
      DashesTrimmed(s, k);
    }
  }

  lemma TrimmedDashes(s: string)
    requires StartsWith(Trim(s), "--")
    ensures DashesAfterBlank(s, |s| - |TrimStart(s)|)
  {
    var t := TrimStart(s);
    var k := |s| - |t|;
    var e := TrimEnd(t);
    assert Trim(s) == e;
    assert e[0] == "--"[0] && e[1] == "--"[1] by {
      assert e[..2] == "--";
    }
    assert t[0] == e[0] && t[1] == e[1];
    assert s[k] == t[0] && s[k + 1] == t[1];
  }

  lemma DashesTrimmed(s: string, k: nat)
    requires DashesAfterBlank(s, k)
    ensures StartsWith(Trim(s), "--")
  {
    LeadingBlankTrim(s, k);
    var t := TrimStart(s);
    assert t == s[k..];
    assert t[0] == '-' && t[1] == '-';
    var e := TrimEnd(t);
    assert !IsWhitespace(t[1]);
    assert e[0] == t[0] && e[1] == t[1];
    assert e[..2] == "--";
  }

  /** Dropping leading whitespace stops at the first non-blank character. */
  lemma {:induction false} LeadingBlankTrim(s: string, k: nat)
    requires LeadingBlank(s, k) && k < |s| && !IsWhitespace(s[k])
    ensures TrimStart(s) == s[k..]
  {
    if k > 0 {
      assert s[0] in s[..k];
      assert LeadingBlank(s[1..], k - 1) by {
        assert s[1..][..k - 1] == s[..k][1..];
      }
      LeadingBlankTrim(s[1..], k - 1);
      assert s[1..][k - 1..] == s[k..];
    }
  }

  // ---------------------------------------------------------------------------
  // Numbers

  /** The regular expression `^\d+(\.\d+)?$`. */
  predicate IsNumber(w: string): (b: bool)
    ensures b ==> w != [] && IsDigit(w[0]) && IsDigit(w[|w| - 1])
  {
    (|w| > 0 && AllDigits(w))
    || exists i | 0 < i < |w| - 1 :: w[i] == '.' && AllDigits(w[..i]) && AllDigits(w[i + 1..])
  }

  /** Upper-casing neither makes nor unmakes a number. */
  lemma NumberIgnoresCase(w: string)
    ensures IsNumber(Upper(w)) <==> IsNumber(w)
  {
    var u := Upper(w);
    DigitsIgnoreCase(w);
    if IsNumber(w) && !(|w| > 0 && AllDigits(w)) {
      var i :| 0 < i < |w| - 1 && w[i] == '.' && AllDigits(w[..i]) && AllDigits(w[i + 1..]);
      PointIgnoresCase(w, i);
    }
    if IsNumber(u) && !(|u| > 0 && AllDigits(u)) {
      var i :| 0 < i < |u| - 1 && u[i] == '.' && AllDigits(u[..i]) && AllDigits(u[i + 1..]);
      PointIgnoresCase(w, i);
    }
  }

  lemma DigitsIgnoreCase(w: string)
    ensures AllDigits(Upper(w)) <==> AllDigits(w)
  {
    assert forall i :: 0 <= i < |w| ==> Upper(w)[i] == UpperChar(w[i]);
  }

  /** A decimal point at `i` splits `w` into digits exactly when it splits `Upper(w)` so. */
  lemma PointIgnoresCase(w: string, i: nat)
    requires 0 < i < |w| - 1
    ensures (w[i] == '.' && AllDigits(w[..i]) && AllDigits(w[i + 1..]))
        <==> (Upper(w)[i] == '.' && AllDigits(Upper(w)[..i]) && AllDigits(Upper(w)[i + 1..]))
  {
    UpperSlice(w, 0, i);
    UpperSlice(w, i + 1, |w|);
    assert w[..i] == w[0..i] && w[i + 1..] == w[i + 1..|w|];
    assert Upper(w)[..i] == Upper(w)[0..i] && Upper(w)[i + 1..] == Upper(w)[i + 1..|w|];
    DigitsIgnoreCase(w[..i]);
    DigitsIgnoreCase(w[i + 1..]);
  }

  /** A number has no whitespace, no quote and no letter. */
  lemma NumberCharacters(w: string, i: nat)
    requires IsNumber(w) && i < |w|
    ensures IsDigit(w[i]) || w[i] == '.'
  {
    if !(|w| > 0 && AllDigits(w)) {
      var k :| 0 < k < |w| - 1 && w[k] == '.' && AllDigits(w[..k]) && AllDigits(w[k + 1..]);
      if i < k {
        assert w[i] == w[..k][i];
      } else if i > k {
        assert w[i] == w[k + 1..][i - k - 1];
      }
    }
  }

  // ---------------------------------------------------------------------------
  // indexOf

  predicate OccursAt(s: string, w: string, k: int) {
    0 <= k && k + |w| <= |s| && s[k..k + |w|] == w
  }

  /** `s.indexOf(w, from)`: the first occurrence of `w` at or after `from`, or -1. */
  function IndexFrom(s: string, w: string, from: nat): (r: int)
    ensures r == -1 || (from <= r && OccursAt(s, w, r))
    ensures forall k :: from <= k && (r == -1 || k < r) ==> !OccursAt(s, w, k)
    decreases |s| - from
  {
    if from + |w| > |s| then -1
    else if s[from..from + |w|] == w then from
    else IndexFrom(s, w, from + 1)
  }

  function IndexOf(s: string, w: string): int {
    IndexFrom(s, w, 0)
  }

  // ---------------------------------------------------------------------------
  // split(/(\s+)/) and join("")

  /** Concatenation of a sequence of strings: `join("")`. */
  function Concat(pieces: seq<string>): string {
    if pieces == [] then [] else pieces[0] + Concat(pieces[1..])
  }

  lemma {:induction false} ConcatAppend(a: seq<string>, b: seq<string>)
    ensures Concat(a + b) == Concat(a) + Concat(b)
  {
    if a != [] {
      calc {
        Concat(a + b);
        (a + b)[0] + Concat((a + b)[1..]);
        { assert (a + b)[0] == a[0] && (a + b)[1..] == a[1..] + b; }
        a[0] + Concat(a[1..] + b);
        { ConcatAppend(a[1..], b); }
        a[0] + (Concat(a[1..]) + Concat(b));
      }
    } else {
      assert a + b == b;
    }
  }

  /** The first index at or after `i` holding whitespace, or the length. */
  function NextWhitespace(s: string, i: nat): (j: nat)
    requires i <= |s|
    ensures i <= j <= |s| && (j < |s| ==> IsWhitespace(s[j]))
    ensures NoWhitespace(s[i..j])
    decreases |s| - i
  {
    if i == |s| || IsWhitespace(s[i]) then i else NextWhitespace(s, i + 1)
  }

  /** The end of the whitespace run starting at `i`. */
  function WhitespaceRunEnd(s: string, i: nat): (j: nat)
    requires i <= |s|
    ensures i <= j <= |s| && (j < |s| ==> !IsWhitespace(s[j]))
    ensures AllWhitespace(s[i..j])
    decreases |s| - i
  {
    if i == |s| || !IsWhitespace(s[i]) then i else WhitespaceRunEnd(s, i + 1)
  }

  /**
   * `s.split(/(\s+)/)`: the words between whitespace runs, with each run
   * kept as a piece of its own between them.
   */
  function SplitKeep(s: string): (r: seq<string>)
    ensures r != []
    ensures |r| == 1 <==> NoWhitespace(s)
    decreases |s|
  {
    var i := NextWhitespace(s, 0);
    if i == |s| then [s]
    else
      var j := WhitespaceRunEnd(s, i);
      [s[..i], s[i..j]] + SplitKeep(s[j..])
  }

  /** Joining the pieces of the split gives the string back. */
  lemma {:induction false} SplitKeepJoin(s: string)
    ensures Concat(SplitKeep(s)) == s
    decreases |s|
  {
    var i := NextWhitespace(s, 0);
    if i == |s| {
      assert SplitKeep(s) == [s];
      assert Concat([s]) == s + Concat([]);
    } else {
      var j := WhitespaceRunEnd(s, i);
      var rest := SplitKeep(s[j..]);
      assert SplitKeep(s) == [s[..i], s[i..j]] + rest;
      SplitKeepJoin(s[j..]);
      ConcatAppend([s[..i], s[i..j]], rest);
      ConcatPair(s[..i], s[i..j]);
      SliceJoin(s, i, j);
    }
  }

  lemma ConcatPair(x: string, y: string)
    ensures Concat([x, y]) == x + y
  {
    assert [x, y][1..] == [y];
    assert Concat([y]) == y + Concat([]);
  }

  /**
   * The shape of a split: words without whitespace alternating with
   * non-empty whitespace runs, a word at each end, and only the two end
   * words possibly empty.
   */
  predicate Alternating(pieces: seq<string>)
    decreases |pieces|
  {
    && |pieces| % 2 == 1
    && NoWhitespace(pieces[0])
    && (|pieces| > 1 ==>
          && pieces[1] != [] && AllWhitespace(pieces[1])
          && (|pieces| > 3 ==> pieces[2] != [])
          && Alternating(pieces[2..]))
  }

  lemma {:induction false} SplitKeepShape(s: string)
    ensures Alternating(SplitKeep(s))
    decreases |s|
  {
    var i := NextWhitespace(s, 0);
    if i < |s| {
      var j := WhitespaceRunEnd(s, i);
      var rest := SplitKeep(s[j..]);
      SplitKeepShape(s[j..]);
      assert s[0..i] == s[..i];
      assert SplitKeep(s) == [s[..i], s[i..j]] + rest;
      assert SplitKeep(s)[2..] == rest;
      if |rest| > 1 {
        assert j < |s|;
        assert NextWhitespace(s[j..], 0) > 0;
        assert rest[0] == s[j..][..NextWhitespace(s[j..], 0)];
      }
    } else {
      assert s[0..i] == s;
    }
  }

  /** Every piece of an alternating split is a word or a whitespace run. */
  lemma {:induction false} AlternatingPieces(pieces: seq<string>)
    requires Alternating(pieces)
    ensures forall k :: 0 <= k < |pieces| ==> AllWhitespace(pieces[k]) || NoWhitespace(pieces[k])
    decreases |pieces|
  {
    if |pieces| > 1 {
      AlternatingPieces(pieces[2..]);
      forall k | 2 <= k < |pieces|
        ensures AllWhitespace(pieces[k]) || NoWhitespace(pieces[k])
      {
        assert pieces[k] == pieces[2..][k - 2];
      }
    }
  }

  // ---------------------------------------------------------------------------
  // split("\n") and join("\n")

  /** The index of the first `\n` at or after `i`, or the length. */
  function NextNewline(s: string, i: nat): (j: nat)
    requires i <= |s|
    ensures i <= j <= |s| && (j < |s| ==> s[j] == '\n')
    ensures '\n' !in s[i..j]
    decreases |s| - i
  {
    if i == |s| || s[i] == '\n' then i else NextNewline(s, i + 1)
  }

  /** `text.split("\n")`. */
  function SplitLines(text: string): (r: seq<string>)
    ensures r != []
    ensures forall k :: 0 <= k < |r| ==> '\n' !in r[k]
    decreases |text|
  {
    var i := NextNewline(text, 0);
    if i == |text| then [text] else [text[..i]] + SplitLines(text[i + 1..])
  }

  /** `lines.join("\n")`. */
  function JoinLines(lines: seq<string>): string {
    if lines == [] then []
    else if |lines| == 1 then lines[0]
    else lines[0] + "\n" + JoinLines(lines[1..])
  }

  function CountNewlines(s: string): nat {
    if s == [] then 0 else (if s[0] == '\n' then 1 else 0) + CountNewlines(s[1..])
  }

  lemma {:induction false} CountNewlinesAppend(a: string, b: string)
    ensures CountNewlines(a + b) == CountNewlines(a) + CountNewlines(b)
  {
    if a != [] {
      assert (a + b)[0] == a[0] && (a + b)[1..] == a[1..] + b;
      CountNewlinesAppend(a[1..], b);
      assert CountNewlines(a + b) == (if a[0] == '\n' then 1 else 0) + CountNewlines(a[1..] + b);
    } else {
      assert a + b == b;
    }
  }

  lemma {:induction false} CountNewlinesNone(s: string)
    requires '\n' !in s
    ensures CountNewlines(s) == 0
  {
    if s != [] {
      assert forall i :: 0 <= i < |s| - 1 ==> s[1..][i] == s[i + 1];
      CountNewlinesNone(s[1..]);
    }
  }

  /**
   * Splitting on `\n` gives one line more than there are newlines, no line
   * holds a newline, and joining the lines with `\n` gives the text back.
   */
  lemma {:induction false} SplitLinesJoin(text: string)
    ensures |SplitLines(text)| == CountNewlines(text) + 1
    ensures JoinLines(SplitLines(text)) == text
    decreases |text|
  {
    var i := NextNewline(text, 0);
    assert text[0..i] == text[..i];
    if i == |text| {
      assert text[..i] == text;
      CountNewlinesNone(text);
    } else {
      var rest := text[i + 1..];
      SplitLinesJoin(rest);
      assert text == text[..i] + "\n" + rest;
      CountNewlinesAppend(text[..i] + "\n", rest);
      CountNewlinesAppend(text[..i], "\n");
      CountNewlinesNone(text[..i]);
      assert CountNewlines("\n") == 1;
    }
  }
}
