/**
 * The markup passes of the highlighter as they are written, kept beside the
 * span model to record where they go wrong: the string splice reuses offsets
 * of the original line after the first insertion has shifted them, and the
 * word pass locates a word by its first occurrence in the line.
 */
module AsWritten {
  import opened Wrappers
  import opened Lexis
  import opened StringLiterals
  import opened Catalogue
  import opened Highlight

  /** The opening tag the string splice inserts before a literal. */
  const StringOpen: string := "<span class=\"text-chart-1\">"

  const SpanClose: string := "</span>"

  // ---------------------------------------------------------------------------
  // The string splice

  /**
   * One step of the splice: the literal is taken from the original line at
   * `r`, and spliced into `processed` at the same offsets `r`.
   */
  function Splice(line: string, processed: string, r: Range): (out: string)
    requires r.start <= r.end <= |line| && r.end <= |processed|
    ensures |out| == |processed| + |StringOpen| + |SpanClose|
  {
    processed[..r.start] + StringOpen + line[r.start..r.end] + SpanClose + processed[r.end..]
  }

  /** Every range lies within the line. */
  predicate WithinLine(line: string, rs: seq<Range>) {
    forall i :: 0 <= i < |rs| ==> rs[i].start <= rs[i].end <= |line|
  }

  /** The processed line after splicing the ranges `rs`, in order, into `line`. */
  function SpliceAll(line: string, rs: seq<Range>): (out: string)
    requires WithinLine(line, rs)
    ensures |out| == |line| + |rs| * (|StringOpen| + |SpanClose|)
  {
    if rs == [] then line
    else
      var p := SpliceAll(line, rs[..|rs| - 1]);
      Splice(line, p, rs[|rs| - 1])
  }

  /** The `forEach` over the string positions, reassigning `processedLine`. */
  method SpliceStrings(line: string, positions: seq<Range>) returns (processedLine: string)
    requires WithinLine(line, positions)
    ensures processedLine == SpliceAll(line, positions)
  {
    processedLine := line;
    for k := 0 to |positions|
      invariant processedLine == SpliceAll(line, positions[..k])
    {
      var r := positions[k];
      assert positions[..k + 1][..k] == positions[..k];
      processedLine := processedLine[..r.start] + StringOpen + line[r.start..r.end] + SpanClose + processedLine[r.end..];
    }
    assert positions[..|positions|] == positions;
  }

  /**
   * What the splice is meant to produce: each literal of `rs`, in order,
   * wrapped in the string markup, the text around them unchanged.
   */
  function Wrapped(line: string, rs: seq<Range>, from: nat): string
    requires from <= |line|
    requires Ordered(line, rs, from)
    decreases |rs|
  {
    if rs == [] then line[from..]
    else
      var r := rs[0];
      line[from..r.start] + StringOpen + line[r.start..r.end] + SpanClose + Wrapped(line, rs[1..], r.end)
  }

  lemma OrderedWithin(line: string, rs: seq<Range>, from: nat)
    requires Ordered(line, rs, from)
    ensures WithinLine(line, rs)
  {
  }

  /** With at most one literal on the line, the splice wraps it as intended. */
  lemma SpliceOneLiteral(line: string, rs: seq<Range>)
    requires Ordered(line, rs, 0) && |rs| <= 1
    ensures WithinLine(line, rs)
    ensures SpliceAll(line, rs) == Wrapped(line, rs, 0)
  {
    if rs != [] {
      var r := rs[0];
      assert rs[..0] == [];
      assert line[..r.start] == line[0..r.start];
      assert Wrapped(line, rs[1..], r.end) == line[r.end..];
    }
  }

  /** The regular expression finds the two literals of `'a' 'b'`. */
  lemma TwoLiterals()
    ensures StringRanges("'a' 'b'") == [Range(0, 3), Range(4, 7)]
  {
    var line := "'a' 'b'";
    assert ClosingQuote(line, '\'', 1) == Some(2);
    assert MatchAt(line, 0) == Some(Range(0, 3));
    assert NextMatch(line, 0) == Some(Range(0, 3));
    assert ClosingQuote(line, '\'', 5) == Some(6);
    assert MatchAt(line, 4) == Some(Range(4, 7));
    assert MatchAt(line, 3) == None;
    assert NextMatch(line, 3) == Some(Range(4, 7));
    assert NextMatch(line, 7) == None;
  }

  /**
   * With two literals the splice garbles the line: the second literal is
   * spliced at its offset in the original line, which now falls inside the
   * markup of the first.
   */
  lemma SpliceStaleOffsets()
    ensures var line := "'a' 'b'";
      var rs := StringRanges(line);
      && Ordered(line, rs, 0)
      && WithinLine(line, rs)
      && SpliceAll(line, rs) != Wrapped(line, rs, 0)
  {
    var line := "'a' 'b'";
    TwoLiterals();
    var rs := StringRanges(line);
    StringRangesSound(line);
    var first := SpliceAll(line, rs[..1]);
    assert rs[..|rs| - 1] == rs[..1];
    assert SpliceAll(line, rs) == Splice(line, first, rs[1]);
    SpliceOpens(line, first, rs[1]);
    WrappedOpens(line, rs, 0, 4);
    assert StringOpen[4] == 'n';
  }

  /** A splice step puts the opening tag at the range's start. */
  lemma SpliceOpens(line: string, processed: string, r: Range)
    requires r.start <= r.end <= |line| && r.end <= |processed|
    ensures Splice(line, processed, r)[r.start] == StringOpen[0]
  {
    IndexSecond(processed[..r.start], StringOpen, line[r.start..r.end], SpanClose, processed[r.end..], 0);
  }

  /** The intended markup opens the first literal's tag where the literal starts. */
  lemma WrappedOpens(line: string, rs: seq<Range>, from: nat, k: nat)
    requires from <= |line| && Ordered(line, rs, from) && rs != [] && k < |StringOpen|
    ensures from <= rs[0].start
    ensures rs[0].start - from + k < |Wrapped(line, rs, from)|
    ensures Wrapped(line, rs, from)[rs[0].start - from + k] == StringOpen[k]
  {
    var r := rs[0];
    OrderedTail(line, rs, from);
    var gap, lit, after := line[from..r.start], line[r.start..r.end], Wrapped(line, rs[1..], r.end);
    assert Wrapped(line, rs, from) == gap + StringOpen + lit + SpanClose + after;
    IndexSecond(gap, StringOpen, lit, SpanClose, after, k);
  }

  /** The `k`-th element of the second of five joined sequences. */
  lemma IndexSecond<X>(a: seq<X>, b: seq<X>, c: seq<X>, d: seq<X>, e: seq<X>, k: nat)
    requires k < |b|
    ensures |a| + k < |a + b + c + d + e| && (a + b + c + d + e)[|a| + k] == b[k]
  {
  }

  /**
   * The evident intent, with the stale offsets avoided: splicing the
   * literals from the last to the first, so that no insertion shifts an
   * offset still to be used.
   */
  function SpliceRightToLeft(line: string, rs: seq<Range>): (out: string)
    requires WithinLine(line, rs)
    ensures |out| == |line| + |rs| * (|StringOpen| + |SpanClose|)
  {
    if rs == [] then line
    else Splice(line, SpliceRightToLeft(line, rs[1..]), rs[0])
  }

  /** Splicing from the last literal to the first wraps every literal as intended. */
  lemma {:induction false} SpliceRightToLeftWraps(line: string, rs: seq<Range>, from: nat)
    requires from <= |line| && Ordered(line, rs, from)
    ensures WithinLine(line, rs)
    ensures SpliceRightToLeft(line, rs) == line[..from] + Wrapped(line, rs, from)
    decreases |rs|
  {
    if rs != [] {
      var r := rs[0];
      assert Ordered(line, rs[1..], r.end) by {
        assert forall i :: 0 <= i < |rs[1..]| ==> rs[1..][i] == rs[i + 1];
      }
      SpliceRightToLeftWraps(line, rs[1..], r.end);
      SpliceOnto(line, SpliceRightToLeft(line, rs[1..]), r, from, Wrapped(line, rs[1..], r.end));
    }
  }

  /** Splicing `r` into a text that agrees with the line up to `r.end`. */
  lemma SpliceOnto(line: string, p: string, r: Range, from: nat, tail: string)
    requires from <= r.start <= r.end <= |line|
    requires p == line[..r.end] + tail
    ensures Splice(line, p, r) == line[..from] + (line[from..r.start] + StringOpen + line[r.start..r.end] + SpanClose + tail)
  {
    assert p[..r.start] == line[..r.start];
    assert p[r.end..] == tail;
    assert line[..r.start] == line[..from] + line[from..r.start];
  }

  /** The literals of any line, spliced from last to first, are wrapped as intended. */
  lemma LineSpliceWraps(line: string)
    ensures Ordered(line, StringRanges(line), 0)
    ensures WithinLine(line, StringRanges(line))
    ensures SpliceRightToLeft(line, StringRanges(line)) == Wrapped(line, StringRanges(line), 0)
  {
    StringRangesSound(line);
    SpliceRightToLeftWraps(line, StringRanges(line), 0);
    assert line[..0] == [];
  }

  // ---------------------------------------------------------------------------
  // The word pass's string test

  /** `w` occurs at `k` of `s` and nowhere before. */
  predicate FirstAt(s: string, w: string, k: nat) {
    OccursAt(s, w, k) && forall j :: 0 <= j < k ==> !OccursAt(s, w, j)
  }

  /** `indexOf` is the offset of the first occurrence, when there is one. */
  lemma IndexOfFirst(s: string, w: string)
    ensures IndexOf(s, w) == -1 || FirstAt(s, w, IndexOf(s, w))
    ensures forall k: nat :: FirstAt(s, w, k) ==> IndexOf(s, w) == k
  {
  }

  /** Testing the `indexOf` offset is testing the first occurrence, if any. */
  lemma FirstInString(s: string, w: string, rs: seq<Range>)
    ensures InString(rs, IndexOf(s, w)) <==> exists k: nat :: FirstAt(s, w, k) && InString(rs, k)
  {
    IndexOfFirst(s, w);
    var i := IndexOf(s, w);
    if i >= 0 {
      assert FirstAt(s, w, i);
    }
  }

  /**
   * The word pass skips a word when the first occurrence of its text in the
   * line, wherever the word itself stands, falls inside a literal.
   */
  predicate SkippedAsWritten(line: string, rs: seq<Range>, word: string): (b: bool)
    ensures b <==> exists k: nat :: FirstAt(line, word, k) && InString(rs, k)
  {
    FirstInString(line, word, rs);
    InString(rs, IndexOf(line, word))
  }

  /** `indexOf` finds `w` at `k` when it occurs there and nowhere before. */
  lemma FirstOccurrence(s: string, w: string, k: nat)
    requires OccursAt(s, w, k)
    requires forall j :: 0 <= j < k ==> !OccursAt(s, w, j)
    ensures IndexOf(s, w) == k
  {
  }

  /** The regular expression finds one literal, `'select'`, in `'select' select`. */
  lemma OneLeadingLiteral()
    ensures StringRanges("'select' select") == [Range(0, 8)]
  {
    var line := "'select' select";
    assert ClosingQuote(line, '\'', 1) == Some(7);
    assert MatchAt(line, 0) == Some(Range(0, 8));
    assert NextMatch(line, 0) == Some(Range(0, 8));
    assert NoLiteralStarts(line, 8, |line|) by {
      forall p | 8 <= p < |line| ensures MatchAt(line, p).None? {
        assert !IsQuote(line[p]);
      }
    }
    assert NextMatch(line, 8) == None;
  }

  /** The regular expression finds one literal, `'a select b'`, in `select 'a select b'`. */
  lemma OneTrailingLiteral()
    ensures StringRanges("select 'a select b'") == [Range(7, 19)]
  {
    var line := "select 'a select b'";
    assert Unbroken(line, '\'', 8, 18) by {
      forall m | 8 <= m < 18 ensures line[m] != '\'' && !IsLineTerminator(line[m]) {
        assert line[8..18] == "a select b";
        assert line[m] == line[8..18][m - 8];
      }
    }
    ClosingQuoteAt(line, '\'', 8, 18);
    assert MatchAt(line, 7) == Some(Range(7, 19));
    assert NoLiteralStarts(line, 0, 7) by {
      forall p | 0 <= p < 7 ensures MatchAt(line, p).None? {
        assert !IsQuote(line[p]);
      }
    }
    NextMatchSkips(line, 0, 7);
    assert NextMatch(line, 0) == Some(Range(7, 19));
    assert NextMatch(line, 19) == None;
  }

  /**
   * The first-occurrence test skips a word outside every literal: in
   * `'select' select` the second `select`, at offset 9, is outside the
   * literal, but the first occurrence of its text is inside it.
   */
  lemma IndexOfSkipsOutside()
    ensures var line := "'select' select";
      && line[9..] == "select" && WholeWord(line, 9, 15)
      && !InString(StringRanges(line), 9)
      && SkippedAsWritten(line, StringRanges(line), "select")
  {
    OneLeadingLiteral();
    LeadingSecondWord();
    LeadingIndexOf();
    assert !InString([Range(0, 8)], 9);
    assert InString([Range(0, 8)], 1);
  }

  /** In `'select' select`, the text `select` first occurs inside the literal, at offset 1. */
  lemma LeadingIndexOf()
    ensures IndexOf("'select' select", "select") == 1
  {
    var line := "'select' select";
    assert line[0..6][0] != "select"[0];
    assert line[1..7] == "select" by {
      forall i | 0 <= i < 6 ensures line[1..7][i] == "select"[i] {
        assert line[1..7][i] == line[i + 1];
      }
    }
    FirstOccurrence(line, "select", 1);
  }

  /** In `'select' select`, the second `select` is a whole word at offset 9. */
  lemma LeadingSecondWord()
    ensures var line := "'select' select";
      line[9..] == "select" && WholeWord(line, 9, 15)
  {
  }

  /**
   * The first-occurrence test keeps a word inside a literal: in
   * `select 'a select b'` the second `select`, at offset 10, is inside the
   * literal, but the first occurrence of its text is outside it, so the word
   * is styled as a keyword inside the string.
   */
  lemma IndexOfKeepsInside()
    ensures var line := "select 'a select b'";
      && line[10..16] == "select"
      && InString(StringRanges(line), 10)
      && !SkippedAsWritten(line, StringRanges(line), "select")
  {
    var line := "select 'a select b'";
    OneTrailingLiteral();
    assert OccursAt(line, "select", 0);
    FirstOccurrence(line, "select", 0);
    assert InString([Range(7, 19)], 10);
    assert !InString([Range(7, 19)], 0);
  }

  // ---------------------------------------------------------------------------
  // The compound keyword passes

  /** The opening tag a compound keyword of class `k` is wrapped in. */
  function KeywordOpen(k: KeywordClass): string {
    match k
    case Query => "<span class=\"text-chart-1 font-bold\">"
    case Modification => "<span class=\"text-chart-2 font-bold\">"
    case Definition => "<span class=\"text-chart-3 font-bold\">"
    case OperatorFunction => "<span class=\"text-chart-4 font-bold\">"
    case Transaction => "<span class=\"text-chart-5 font-bold\">"
  }

  /**
   * The compound keyword pass's string test: a match is left alone when the
   * first occurrence of the matched text in `processed` falls inside a
   * literal of the original line. `processed` is the line as it stands when
   * the current keyword's pass begins: it holds the string markup and the
   * markup of every compound keyword wrapped by the passes before.
   */
  predicate CompoundSkippedAsWritten(processed: string, rs: seq<Range>, matched: string): (b: bool)
    ensures b <==> exists k: nat :: FirstAt(processed, matched, k) && InString(rs, k)
  {
    FirstInString(processed, matched, rs);
    InString(rs, IndexOf(processed, matched))
  }

  /**
   * The `replace` callback's result for the match `m`, where `cls` is the
   * class of the pass's keyword: the match as it stands when it is skipped
   * or its keyword has no class, else the match in the class's markup.
   */
  function Replacement(processed: string, rs: seq<Range>, cls: Option<KeywordClass>, m: string): string {
    if CompoundSkippedAsWritten(processed, rs, m) then m
    else match cls
      case Some(k) => KeywordOpen(k) + m + SpanClose
      case None => m
  }

  /**
   * One keyword's `replace` with a global, case-insensitive `\bKW\b`, from
   * offset `pos` of `processed`: matches are found left to right without
   * overlap in `processed` itself, and the callback tests each of them
   * against `processed` as it was before the pass.
   */
  function ReplaceFrom(processed: string, rs: seq<Range>, kw: string, cls: Option<KeywordClass>, pos: nat): string
    requires kw != [] && pos <= |processed|
    decreases |processed| - pos
  {
    if pos == |processed| then []
    else if MatchesAt(processed, kw, pos) then
      Replacement(processed, rs, cls, processed[pos..pos + |kw|])
      + ReplaceFrom(processed, rs, kw, cls, pos + |kw|)
    else [processed[pos]] + ReplaceFrom(processed, rs, kw, cls, pos + 1)
  }

  /** One keyword's pass over the whole processed line; its class is that of `keyword.toUpperCase()`. */
  function Pass(processed: string, rs: seq<Range>, kw: string): string
    requires kw != []
  {
    ReplaceFrom(processed, rs, kw, KeywordClassOf(Upper(kw)), 0)
  }

  /** The `forEach` over the compound keywords, each pass reassigning `processedLine`. */
  function CompoundPasses(processed: string, rs: seq<Range>, kws: seq<string>): string
    requires AllCanonical(kws)
    decreases |kws|
  {
    if kws == [] then processed
    else
      assert kws[0] in kws;
      CompoundPasses(Pass(processed, rs, kws[0]), rs, kws[1..])
  }

  /**
   * A pass copies a stretch of the processed line in which its keyword
   * matches nowhere.
   */
  lemma {:induction false} ReplaceCopies(processed: string, rs: seq<Range>, kw: string, cls: Option<KeywordClass>, i: nat, j: nat)
    requires kw != [] && i <= j <= |processed|
    requires forall p: nat :: i <= p < j ==> !MatchesAt(processed, kw, p)
    ensures ReplaceFrom(processed, rs, kw, cls, i) == processed[i..j] + ReplaceFrom(processed, rs, kw, cls, j)
    decreases j - i
  {
    if i == j {
      assert processed[i..j] == [];
    } else {
      var here := ReplaceFrom(processed, rs, kw, cls, i);
      var next := ReplaceFrom(processed, rs, kw, cls, i + 1);
      var rest := ReplaceFrom(processed, rs, kw, cls, j);
      assert !MatchesAt(processed, kw, i);
      ReplaceStep(processed, rs, kw, cls, i);
      ReplaceCopies(processed, rs, kw, cls, i + 1, j);
      CopyOne(processed, i, j, here, next, rest);
    }
  }

  /** Copying one character ahead of a copied stretch copies the longer stretch. */
  lemma CopyOne(s: string, i: nat, j: nat, here: string, next: string, rest: string)
    requires i < j <= |s|
    requires here == [s[i]] + next && next == s[i + 1..j] + rest
    ensures here == s[i..j] + rest
  {
    assert s[i..j] == [s[i]] + s[i + 1..j];
  }

  /** Where its keyword does not match, a pass copies one character. */
  lemma ReplaceStep(processed: string, rs: seq<Range>, kw: string, cls: Option<KeywordClass>, i: nat)
    requires kw != [] && i < |processed| && !MatchesAt(processed, kw, i)
    ensures ReplaceFrom(processed, rs, kw, cls, i) == [processed[i]] + ReplaceFrom(processed, rs, kw, cls, i + 1)
  {
  }

  /**
   * A pass leaves a match it skips as it stands, and wraps a match it does
   * not skip in the markup of the keyword's class.
   */
  lemma ReplaceAtMatch(processed: string, rs: seq<Range>, kw: string, k: KeywordClass, p: nat)
    requires kw != [] && MatchesAt(processed, kw, p)
    ensures var m := processed[p..p + |kw|];
      && Upper(m) == kw
      && (CompoundSkippedAsWritten(processed, rs, m) ==>
            ReplaceFrom(processed, rs, kw, Some(k), p) == m + ReplaceFrom(processed, rs, kw, Some(k), p + |kw|))
      && (!CompoundSkippedAsWritten(processed, rs, m) ==>
            ReplaceFrom(processed, rs, kw, Some(k), p)
            == KeywordOpen(k) + m + SpanClose + ReplaceFrom(processed, rs, kw, Some(k), p + |kw|))
  {
  }

  /** The passes of the first two keywords run first, in order. */
  lemma CompoundPassesFirstTwo(processed: string, rs: seq<Range>, kws: seq<string>)
    requires AllCanonical(kws) && |kws| >= 2
    ensures kws[0] != [] && kws[1] != []
    ensures CompoundPasses(processed, rs, kws)
         == CompoundPasses(Pass(Pass(processed, rs, kws[0]), rs, kws[1]), rs, kws[2..])
  {
    assert kws[0] in kws && kws[1] in kws;
    assert kws[1..][0] == kws[1] && kws[1..][1..] == kws[2..];
  }

  // ---------------------------------------------------------------------------
  // The first compound pass: a keyword inside a literal is wrapped

  /** The regular expression finds one literal, the whole of `'group by'`. */
  lemma GroupByLiteral()
    ensures StringRanges("'group by'") == [Range(0, 10)]
  {
    var line := "'group by'";
    assert Unbroken(line, '\'', 1, 9) by {
      forall m | 1 <= m < 9 ensures line[m] != '\'' && !IsLineTerminator(line[m]) {
        assert line[1..9] == "group by";
        assert line[m] == line[1..9][m - 1];
      }
    }
    ClosingQuoteAt(line, '\'', 1, 9);
    assert MatchAt(line, 0) == Some(Range(0, 10));
    assert NextMatch(line, 0) == Some(Range(0, 10));
    assert NextMatch(line, 10) == None;
  }

  /** `GROUP BY` matches `'group by'` at offset 1, inside the literal. */
  lemma GroupByMatch()
    ensures MatchesAt("'group by'", "GROUP BY", 1)
  {
    var line := "'group by'";
    assert Upper(line[1..9]) == "GROUP BY" by {
      forall k | 0 <= k < 8 ensures Upper(line[1..9])[k] == "GROUP BY"[k] {
        assert line[1..9][k] == "group by"[k];
      }
    }
  }

  /** Splicing the one literal of `'group by'` wraps the whole line. */
  lemma GroupBySplice()
    ensures WithinLine("'group by'", [Range(0, 10)])
    ensures SpliceAll("'group by'", [Range(0, 10)]) == StringOpen + "'group by'" + SpanClose
  {
    var line := "'group by'";
    var rs := [Range(0, 10)];
    assert rs[..0] == [];
    assert line[0..10] == line && line[..0] == [] && line[10..] == [];
  }

  /**
   * In the processed line the text `group by` first occurs past the
   * string markup: the markup holds no `g`, nor does the opening quote.
   */
  lemma GroupByIndexOf()
    ensures IndexOf(StringOpen + "'group by'" + SpanClose, "group by") == |StringOpen| + 1
  {
    var processed := StringOpen + "'group by'" + SpanClose;
    var k := |StringOpen| + 1;
    assert processed[k..k + 8] == "group by" by {
      forall i | 0 <= i < 8 ensures processed[k..k + 8][i] == "group by"[i] {
        assert processed[k + i] == "'group by'"[1 + i];
      }
    }
    forall j | 0 <= j < k ensures !OccursAt(processed, "group by", j) {
      assert processed[j..j + 8][0] == processed[j] != 'g';
    }
    FirstOccurrence(processed, "group by", k);
  }

  /**
   * The compound keyword pass styles a keyword inside a literal: in
   * `'group by'` the match of `GROUP BY` at offset 1 lies inside the
   * literal, but its text first occurs at offset 28 of the processed line,
   * which the literal ranges of the original line do not hold.
   */
  lemma CompoundInsideLiteralAsWritten()
    ensures var line := "'group by'";
      && MatchesAt(line, "GROUP BY", 1)
      && InString(StringRanges(line), 1)
      && WithinLine(line, StringRanges(line))
      && IndexOf(SpliceAll(line, StringRanges(line)), "group by") == 28
      && !CompoundSkippedAsWritten(SpliceAll(line, StringRanges(line)), StringRanges(line), "group by")
  {
    GroupByLiteral();
    GroupByMatch();
    GroupBySplice();
    GroupByIndexOf();
    assert InString([Range(0, 10)], 1);
    assert !InString([Range(0, 10)], 28);
  }

  // ---------------------------------------------------------------------------
  // A later compound pass: a keyword outside every literal is skipped

  /** A literal of 34 characters between quotes. */
  const LongLiteral: string := "'xxxxxxxxxxxxxxxxxxxxxxxxxxxxxxxxxx'"

  /** GROUP BY and ORDER BY, then a literal that reaches past them once they are wrapped. */
  const OrderByLine: string := "group by order by " + LongLiteral

  /** What follows `group by` in `OrderByLine` once its literal is spliced. */
  const AfterGroup: string := " order by " + StringOpen + LongLiteral + SpanClose

  /** `group by` wrapped as a query keyword. */
  const WrappedGroup: string := KeywordOpen(Query) + "group by" + SpanClose

  /** The processed line of `OrderByLine` once GROUP BY's pass has run. */
  const OrderByBefore: string := WrappedGroup + AfterGroup

  /** The regular expression finds one literal in `OrderByLine`, at [18, 54). */
  lemma OrderByLiteral()
    ensures StringRanges(OrderByLine) == [Range(18, 54)]
  {
    var line := OrderByLine;
    OrderByLineShape();
    assert Unbroken(line, '\'', 19, 53) by {
      forall m | 19 <= m < 53 ensures line[m] != '\'' && !IsLineTerminator(line[m]) {
        assert line[m] == line[18..][m - 18] == 'x';
      }
    }
    assert line[18] == line[18..][0] && line[53] == line[18..][35];
    ClosingQuoteAt(line, '\'', 19, 53);
    assert MatchAt(line, 18) == Some(Range(18, 54));
    assert NoLiteralStarts(line, 0, 18) by {
      forall p | 0 <= p < 18 ensures MatchAt(line, p).None? {
        assert !IsQuote(line[p]);
      }
    }
    NextMatchSkips(line, 0, 18);
    assert NextMatch(line, 0) == Some(Range(18, 54));
    assert |line| == 54 && NextMatch(line, 54) == None;
    assert StringRangesFrom(line, 54) == [];
  }

  /** `OrderByLine`: 18 characters without a quote, then `LongLiteral`. */
  lemma OrderByLineShape()
    ensures |OrderByLine| == 54 && OrderByLine[18..] == LongLiteral
    ensures forall p | 0 <= p < 18 :: !IsQuote(OrderByLine[p])
    ensures LongLiteral[0] == '\'' && LongLiteral[35] == '\''
    ensures forall k | 1 <= k < 35 :: LongLiteral[k] == 'x'
  {
  }

  /** Splicing the one literal of `OrderByLine` wraps its last 36 characters. */
  lemma OrderBySplice()
    ensures WithinLine(OrderByLine, [Range(18, 54)])
    ensures SpliceAll(OrderByLine, [Range(18, 54)]) == "group by" + AfterGroup
  {
    var line := OrderByLine;
    var rs := [Range(18, 54)];
    assert rs[..0] == [];
    assert line[..18] == "group by" + " order by " && line[18..54] == LongLiteral && line[54..] == [];
  }

  /** `s[i..]` holds no character whose upper-case form is `kw[0]`, so `kw` matches nowhere there. */
  lemma NoMatchPast(s: string, kw: string, i: nat)
    requires kw != []
    requires forall p :: i <= p < |s| ==> UpperChar(s[p]) != kw[0]
    ensures forall p: nat :: i <= p ==> !MatchesAt(s, kw, p)
  {
    forall p: nat | i <= p && p + |kw| <= |s| ensures !MatchesAt(s, kw, p) {
      assert Upper(s[p..p + |kw|])[0] == UpperChar(s[p]);
    }
  }

  /** The text after `group by` in the spliced line holds no `g` in either case. */
  lemma NoGroupPast(s: string)
    requires s == "group by" + AfterGroup
    ensures forall p :: 8 <= p < |s| ==> UpperChar(s[p]) != 'G'
  {
    NoGroupPieces();
    forall p | 8 <= p < |s| ensures UpperChar(s[p]) != 'G' {
      assert s[p] == AfterGroup[p - 8] && AfterGroup[p - 8] in AfterGroup;
    }
  }

  /** None of the pieces after `group by` holds a `g` in either case. */
  lemma NoGroupPieces()
    ensures 'g' !in AfterGroup && 'G' !in AfterGroup
  {
    MarkupNoG();
    LiteralNoG();
    assert 'g' !in " order by " && 'G' !in " order by ";
  }

  /** The string markup holds no `g` in either case. */
  lemma MarkupNoG()
    ensures 'g' !in StringOpen && 'G' !in StringOpen && 'g' !in SpanClose && 'G' !in SpanClose
  {
  }

  /** `LongLiteral` holds no `g` in either case. */
  lemma LiteralNoG()
    ensures 'g' !in LongLiteral && 'G' !in LongLiteral
  {
  }

  /** `group by` matches GROUP BY, and `order by` matches ORDER BY, ignoring case. */
  lemma UpperCompounds()
    ensures Upper("group by") == "GROUP BY" && Upper("order by") == "ORDER BY"
  {
    assert Upper("group by") == "GROUP BY" by {
      forall k | 0 <= k < 8 ensures Upper("group by")[k] == "GROUP BY"[k] {
      }
    }
    assert Upper("order by") == "ORDER BY" by {
      forall k | 0 <= k < 8 ensures Upper("order by")[k] == "ORDER BY"[k] {
      }
    }
  }

  /**
   * A pass whose keyword matches only at offset 0, where it is not skipped,
   * wraps that match and copies the rest.
   */
  lemma PassWrapsHead(s: string, rs: seq<Range>, kw: string, k: KeywordClass)
    requires kw != [] && MatchesAt(s, kw, 0)
    requires !CompoundSkippedAsWritten(s, rs, s[..|kw|])
    requires forall p: nat :: |kw| <= p ==> !MatchesAt(s, kw, p)
    ensures ReplaceFrom(s, rs, kw, Some(k), 0) == KeywordOpen(k) + s[..|kw|] + SpanClose + s[|kw|..]
  {
    var m := s[0..|kw|];
    assert m == s[..|kw|];
    ReplaceAtMatch(s, rs, kw, k, 0);
    var rest := ReplaceFrom(s, rs, kw, Some(k), |kw|);
    ReplaceCopies(s, rs, kw, Some(k), |kw|, |s|);
    assert ReplaceFrom(s, rs, kw, Some(k), |s|) == [];
    assert rest == s[|kw|..];
  }

  /** GROUP BY and ORDER BY are query keywords. */
  lemma CompoundsAreQuery()
    ensures KeywordClassOf(Upper("GROUP BY")) == Some(Query)
    ensures KeywordClassOf(Upper("ORDER BY")) == Some(Query)
  {
    UpperCompounds();
    UpperIdempotent("group by");
    UpperIdempotent("order by");
    assert "GROUP BY" in QueryKeywords && "ORDER BY" in QueryKeywords;
  }

  /**
   * GROUP BY's pass over the spliced `OrderByLine` wraps the one match, at
   * offset 0, as a query keyword, and copies the rest.
   */
  lemma GroupByPass(s: string)
    requires s == "group by" + AfterGroup
    ensures MatchesAt(s, "GROUP BY", 0)
    ensures ReplaceFrom(s, [Range(18, 54)], "GROUP BY", Some(Query), 0) == OrderByBefore
  {
    var rs := [Range(18, 54)];
    UpperCompounds();
    assert s[..8] == "group by" && s[8..] == AfterGroup;
    assert s[8] == ' ';
    assert MatchesAt(s, "GROUP BY", 0);
    FirstOccurrence(s, "group by", 0);
    assert !InString(rs, 0);
    NoGroupPast(s);
    NoMatchPast(s, "GROUP BY", 8);
    PassWrapsHead(s, rs, "GROUP BY", Query);
  }

  /** No `c` in `s` is followed by `d`. */
  predicate NoPair(s: string, c: char, d: char) {
    forall j :: 0 <= j < |s| - 1 ==> s[j] != c || s[j + 1] != d
  }

  /** Two strings without the pair, whose seam does not make one, joined. */
  lemma NoPairAppend(a: string, b: string, c: char, d: char)
    requires NoPair(a, c, d) && NoPair(b, c, d)
    requires a != [] && b != [] && (a[|a| - 1] != c || b[0] != d)
    ensures NoPair(a + b, c, d)
  {
    forall j | 0 <= j < |a + b| - 1 ensures (a + b)[j] != c || (a + b)[j + 1] != d {
      if j < |a| - 1 {
        assert (a + b)[j] == a[j] && (a + b)[j + 1] == a[j + 1];
      } else if j == |a| - 1 {
        assert (a + b)[j] == a[|a| - 1] && (a + b)[j + 1] == b[0];
      } else {
        assert (a + b)[j] == b[j - |a|] && (a + b)[j + 1] == b[j + 1 - |a|];
      }
    }
  }

  /** The query keyword markup has an `o` only in `font` and `bold`, before `n` and `l`. */
  lemma QueryOpenNoOr()
    ensures NoPair(KeywordOpen(Query), 'o', 'r')
  {
  }

  /** `group by` wrapped, and the space after it, hold no `o` before an `r`. */
  lemma WrappedGroupNoOr()
    ensures |WrappedGroup| == 52 && NoPair(WrappedGroup + " ", 'o', 'r')
  {
    QueryOpenNoOr();
    assert NoPair("group by", 'o', 'r');
    NoPairAppend(KeywordOpen(Query), "group by", 'o', 'r');
    assert NoPair(SpanClose + " ", 'o', 'r') by {
      assert 'o' !in SpanClose + " ";
    }
    NoPairAppend(KeywordOpen(Query) + "group by", SpanClose + " ", 'o', 'r');
    assert KeywordOpen(Query) + "group by" + (SpanClose + " ") == WrappedGroup + " ";
  }

  /** `AfterGroup` starts with ` order by `. */
  lemma AfterGroupStart()
    ensures |AfterGroup| >= 10 && AfterGroup[..10] == " order by "
  {
  }

  /**
   * `w` first occurs right after `head` when `tail` starts with it and no
   * first character of `w` in `head` is followed by its second.
   */
  lemma FirstAfter(head: string, tail: string, w: string)
    requires |w| >= 2 && |tail| >= |w| && tail[..|w|] == w
    requires head != [] && NoPair(head, w[0], w[1]) && head[|head| - 1] != w[0]
    ensures IndexOf(head + tail, w) == |head|
  {
    var b := head + tail;
    assert b[|head|..|head| + |w|] == tail[..|w|];
    forall j | 0 <= j < |head| ensures !OccursAt(b, w, j) {
      if j + |w| <= |b| {
        assert b[j..j + |w|][0] == b[j] && b[j..j + |w|][1] == b[j + 1];
        if j < |head| - 1 {
          assert b[j] == head[j] && b[j + 1] == head[j + 1];
        } else {
          assert b[j] == head[|head| - 1];
        }
      }
    }
    FirstOccurrence(b, w, |head|);
  }

  /**
   * When the 52 characters before ` order by ` hold no `o` before an `r`,
   * the text `order by` first occurs at offset 53, where ORDER BY matches.
   */
  lemma OrderByAt(pre: string, rest: string)
    requires |pre| == 52 && NoPair(pre + " ", 'o', 'r')
    requires |rest| >= 10 && rest[..10] == " order by "
    ensures var b := pre + rest;
      b[53..61] == "order by" && MatchesAt(b, "ORDER BY", 53) && IndexOf(b, "order by") == 53
  {
    var b := pre + rest;
    var head := pre + " ";
    var tail := rest[1..];
    assert rest[0] == ' ' && rest == [' '] + tail;
    assert b == head + tail;
    var w := rest[..10];
    assert w == " order by ";
    forall i | 0 <= i < 8 ensures tail[i] == w[i + 1] {
    }
    assert tail[..8] == w[1..9] == "order by";
    assert b[53..61] == tail[..8];
    assert b[52] == ' ' && b[61] == w[9] == ' ';
    UpperCompounds();
    FirstAfter(head, tail, "order by");
  }

  /**
   * After GROUP BY is wrapped, the text `order by` first occurs at offset
   * 53, as its match does: the markup before it holds an `o` only in
   * `font`, `bold` and `group`, and none of these is followed by `r`.
   */
  lemma OrderByIndexOf()
    ensures OrderByBefore[53..61] == "order by" && MatchesAt(OrderByBefore, "ORDER BY", 53)
    ensures IndexOf(OrderByBefore, "order by") == 53
  {
    WrappedGroupNoOr();
    AfterGroupStart();
    OrderByAt(WrappedGroup, AfterGroup);
  }

  /** In `OrderByLine`, ORDER BY matches at offset 9, outside the only literal. */
  lemma OrderByOutside()
    ensures MatchesAt(OrderByLine, "ORDER BY", 9) && !InString(StringRanges(OrderByLine), 9)
  {
    OrderByLiteral();
    OrderByMatch();
    assert !InString([Range(18, 54)], 9);
  }

  /** In `OrderByLine`, ORDER BY matches at offset 9. */
  lemma OrderByMatch()
    ensures MatchesAt(OrderByLine, "ORDER BY", 9)
  {
    UpperCompounds();
    assert OrderByLine[9..17] == "order by";
  }

  /** The first pass, GROUP BY's, turns the spliced `OrderByLine` into `OrderByBefore`. */
  lemma OrderByFirstPass()
    ensures WithinLine(OrderByLine, StringRanges(OrderByLine))
    ensures var rs := StringRanges(OrderByLine);
      Pass(SpliceAll(OrderByLine, rs), rs, "GROUP BY") == OrderByBefore
  {
    CompoundsAreQuery();
    OrderByLiteral();
    OrderBySplice();
    GroupByPass(SpliceAll(OrderByLine, [Range(18, 54)]));
  }

  /** ORDER BY's pass over `OrderByBefore` skips its match at offset 53 and copies it. */
  lemma OrderBySecondPass()
    ensures var b := OrderByBefore;
      && MatchesAt(b, "ORDER BY", 53)
      && CompoundSkippedAsWritten(b, [Range(18, 54)], b[53..61])
      && ReplaceFrom(b, [Range(18, 54)], "ORDER BY", Some(Query), 53)
         == b[53..61] + ReplaceFrom(b, [Range(18, 54)], "ORDER BY", Some(Query), 61)
  {
    var rs := [Range(18, 54)];
    OrderByIndexOf();
    assert InString(rs, 53);
    ReplaceAtMatch(OrderByBefore, rs, "ORDER BY", Query, 53);
  }

  /** On `OrderByLine`, the `forEach` runs GROUP BY's pass, then ORDER BY's, then the rest. */
  lemma OrderByPassesRun()
    ensures WithinLine(OrderByLine, StringRanges(OrderByLine)) && AllCanonical(CompoundKeywords())
    ensures |CompoundKeywords()| >= 2
    ensures var rs := StringRanges(OrderByLine);
      CompoundPasses(SpliceAll(OrderByLine, rs), rs, CompoundKeywords())
      == CompoundPasses(Pass(Pass(SpliceAll(OrderByLine, rs), rs, "GROUP BY"), rs, "ORDER BY"), rs, CompoundKeywords()[2..])
  {
    OrderByFirstPass();
    CompoundsCanonical();
    CompoundKeywordsStart();
    var kws := CompoundKeywords();
    assert kws[0] == "GROUP BY" && kws[1] == "ORDER BY" by {
      assert kws[..2][0] == kws[0] && kws[..2][1] == kws[1];
    }
    var rs := StringRanges(OrderByLine);
    CompoundPassesFirstTwo(SpliceAll(OrderByLine, rs), rs, kws);
  }

  /**
   * The compound keyword passes skip a keyword outside every literal: in
   * `OrderByLine` ORDER BY matches at offset 9, outside the only literal,
   * [18, 54). GROUP BY's pass runs first and wraps its match at offset 0,
   * which moves the text `order by` to offset 53 of the processed line,
   * inside [18, 54); so ORDER BY's pass, which runs next, copies its match
   * unwrapped.
   */
  lemma CompoundOutsideLiteralSkippedAsWritten()
    ensures |CompoundKeywords()| >= 2 && CompoundKeywords()[..2] == ["GROUP BY", "ORDER BY"]
    ensures MatchesAt(OrderByLine, "ORDER BY", 9) && !InString(StringRanges(OrderByLine), 9)
    ensures WithinLine(OrderByLine, StringRanges(OrderByLine)) && AllCanonical(CompoundKeywords())
    ensures var rs := StringRanges(OrderByLine);
      var before := Pass(SpliceAll(OrderByLine, rs), rs, "GROUP BY");
      && CompoundPasses(SpliceAll(OrderByLine, rs), rs, CompoundKeywords())
         == CompoundPasses(Pass(before, rs, "ORDER BY"), rs, CompoundKeywords()[2..])
      && MatchesAt(before, "ORDER BY", 53)
      && CompoundSkippedAsWritten(before, rs, before[53..61])
      && KeywordClassOf(Upper("ORDER BY")) == Some(Query)
      && ReplaceFrom(before, rs, "ORDER BY", Some(Query), 53)
         == before[53..61] + ReplaceFrom(before, rs, "ORDER BY", Some(Query), 61)
  {
    CompoundKeywordsStart();
    CompoundsAreQuery();
    OrderByOutside();
    OrderByFirstPass();
    OrderByLiteral();
    OrderBySecondPass();
    OrderByPassesRun();
  }
}
