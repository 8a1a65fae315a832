/**
 * The highlighting pipeline: each line of the buffer becomes a sequence of
 * (category, text) spans. A line whose trimmed text starts with `--` is one
 * comment span; any other line is cut, left to right, into its string
 * literals, its compound keywords and the text between them, which is split
 * on whitespace runs and classified word by word.
 */
module Highlight {
  import opened Wrappers
  import opened Lexis
  import opened Catalogue
  import opened StringLiterals
  import opened Seqs

  /** What a span is drawn as; it stands for the markup's style classes. */
  datatype Category = Comment | StringLiteral | Number | Keyword(kind: KeywordClass) | Plain

  /**
   * How a token of a line was found: inside a string literal, as a match of
   * a compound keyword, or as a piece of the whitespace split, with `whole`
   * telling whether the piece is a whole whitespace-delimited word of the line.
   */
  datatype Role = Literal | Compound(keyword: string) | Piece(whole: bool)

  /** A stretch of a line's text with a tag: a role while lexing, a category once styled. */
  datatype Tagged<T> = Tagged(tag: T, text: string)

  type Token = Tagged<Role>
  type Span = Tagged<Category>

  /** One line of output with its 1-based line number. */
  datatype NumberedLine = NumberedLine(number: nat, spans: seq<Span>)

  /** The text the tagged stretches stand for, in order. */
  function Text<T>(ps: seq<Tagged<T>>): string {
    if ps == [] then [] else ps[0].text + Text(ps[1..])
  }

  lemma {:induction false} TextAppend<T>(a: seq<Tagged<T>>, b: seq<Tagged<T>>)
    ensures Text(a + b) == Text(a) + Text(b)
  {
    if a == [] {
      assert a + b == b;
    } else {
      AppendTail(a, b);
      TextAppend(a[1..], b);
      AppendAssoc(a[0].text, Text(a[1..]), Text(b));
    }
  }

  /**
   * The ranges of the stretches tagged `tag`, the stretches laid end to end
   * from offset `o`.
   */
  function RangesOf<T(==)>(ps: seq<Tagged<T>>, tag: T, o: nat): seq<Range> {
    if ps == [] then []
    else
      (if ps[0].tag == tag then [Range(o, o + |ps[0].text|)] else [])
      + RangesOf(ps[1..], tag, o + |ps[0].text|)
  }

  lemma {:induction false} RangesOfAppend<T>(a: seq<Tagged<T>>, b: seq<Tagged<T>>, tag: T, o: nat)
    ensures RangesOf(a + b, tag, o) == RangesOf(a, tag, o) + RangesOf(b, tag, o + |Text(a)|)
  {
    if a == [] {
      assert a + b == b;
    } else {
      var h := if a[0].tag == tag then [Range(o, o + |a[0].text|)] else [];
      var o1 := o + |a[0].text|;
      AppendTail(a, b);
      assert RangesOf(a + b, tag, o) == h + RangesOf(a[1..] + b, tag, o1);
      RangesOfAppend(a[1..], b, tag, o1);
      assert Text(a) == a[0].text + Text(a[1..]);
      AppendAssoc(h, RangesOf(a[1..], tag, o1), RangesOf(b, tag, o + |Text(a)|));
    }
  }

  // ---------------------------------------------------------------------------
  // Word classification

  /**
   * A word is a number when it matches `^\d+(\.\d+)?$`; otherwise it takes
   * the class of the first keyword list holding its upper-case form;
   * otherwise it is plain.
   */
  function Classify(word: string): (c: Category)
    ensures c == Number <==> IsNumber(word)
    ensures c.Keyword? ==> Upper(word) in ListOf(c.kind)
    ensures c.Keyword? ==> forall k :: Rank(k) < Rank(c.kind) ==> Upper(word) !in ListOf(k)
    ensures c.Keyword? ==> !IsNumber(word) && KeywordClassOf(Upper(word)) == Some(c.kind)
    ensures c == Plain <==> !IsNumber(word) && !InCatalogue(Upper(word))
    ensures c.Number? || c.Keyword? || c.Plain?
  {
    if IsNumber(word) then Number
    else match KeywordClassOf(Upper(word))
      case Some(k) => Keyword(k)
      case None => Plain
  }

  /**
   * Words are split on whitespace only, so punctuation stays in the word: a
   * word ending in a character that is no letter, digit or `_`, such as
   * `10;` or `FROM,`, is neither a number nor a keyword.
   */
  lemma PunctuatedWordIsPlain(w: string)
    requires w != [] && !IsWordChar(w[|w| - 1])
    ensures Classify(w) == Plain
  {
    var u := Upper(w);
    assert !IsWordChar(u[|u| - 1]);
    if InCatalogue(u) {
      CatalogueCanonical(u);
    }
  }

  /** Classification looks only at the upper-case form of the word. */
  lemma ClassifyIgnoresCase(w: string, v: string)
    requires Upper(w) == Upper(v)
    ensures Classify(w) == Classify(v)
  {
    NumberIgnoresCase(w);
    NumberIgnoresCase(v);
  }

  // ---------------------------------------------------------------------------
  // Compound keywords

  /** The regular-expression assertion `\b` at position `p`. */
  predicate WordBoundary(s: string, p: nat)
    requires p <= |s|
  {
    (p > 0 && IsWordChar(s[p - 1])) != (p < |s| && IsWordChar(s[p]))
  }

  /** `\bKW\b` with the `i` flag matches at `p`. */
  predicate MatchesAt(line: string, kw: string, p: nat) {
    && p + |kw| <= |line|
    && WordBoundary(line, p)
    && WordBoundary(line, p + |kw|)
    && Upper(line[p..p + |kw|]) == kw
  }

  /** A compound keyword matches only with exactly one space between its words. */
  lemma DoubleSpaceNoMatch()
    ensures !MatchesAt("group  by", "GROUP BY", 0)
    ensures MatchesAt("group by", "GROUP BY", 0)
  {
    assert Upper("group  by"[0..8])[6] == ' ';
    assert Upper("group by"[0..8]) == "GROUP BY";
  }

  /** The first of `kws` that matches at `p`. */
  function FirstMatching(line: string, kws: seq<string>, p: nat): (r: Option<string>)
    ensures r.Some? ==> r.value in kws && MatchesAt(line, r.value, p)
    ensures r.Some? ==> exists j: nat :: FirstMatchIndex(line, kws, p, j) && kws[j] == r.value
    ensures r.None? ==> forall kw :: kw in kws ==> !MatchesAt(line, kw, p)
  {
    if kws == [] then None
    else if MatchesAt(line, kws[0], p) then
      assert FirstMatchIndex(line, kws, p, 0);
      Some(kws[0])
    else
      var r := FirstMatching(line, kws[1..], p);
      if r.Some? then
        var j: nat :| FirstMatchIndex(line, kws[1..], p, j) && kws[1..][j] == r.value;
        MatchIndexShift(line, kws, p, j);
        r
      else r
  }

  /** `kws[j]` matches at `p` and no keyword before it does. */
  predicate FirstMatchIndex(line: string, kws: seq<string>, p: nat, j: nat) {
    j < |kws| && MatchesAt(line, kws[j], p) && forall i :: 0 <= i < j ==> !MatchesAt(line, kws[i], p)
  }

  lemma MatchIndexShift(line: string, kws: seq<string>, p: nat, j: nat)
    requires kws != [] && !MatchesAt(line, kws[0], p)
    requires FirstMatchIndex(line, kws[1..], p, j)
    ensures FirstMatchIndex(line, kws, p, j + 1) && kws[j + 1] == kws[1..][j]
  {
    forall i | 0 <= i < j + 1 ensures !MatchesAt(line, kws[i], p) {
      if i > 0 {
        assert kws[i] == kws[1..][i - 1];
      }
    }
  }

  /** A compound keyword's match holds no quote, so no literal begins inside it. */
  lemma CompoundHasNoQuote(line: string, kw: string, p: nat, q: nat)
    requires Canonical(kw) && MatchesAt(line, kw, p)
    requires p <= q < p + |kw|
    ensures !IsQuote(line[q])
  {
    var u := UpperChar(line[q]);
    assert Upper(line[p..p + |kw|])[q - p] == u;
    assert 'A' <= kw[q - p] <= 'Z' || kw[q - p] == ' ';
    assert !IsQuote(u);
  }

  /** The characters of a match, upper-cased, are the keyword's. */
  lemma MatchChars(line: string, kw: string, p: nat)
    requires MatchesAt(line, kw, p)
    ensures forall k :: 0 <= k < |kw| ==> UpperChar(line[p + k]) == kw[k]
  {
    forall k | 0 <= k < |kw| ensures UpperChar(line[p + k]) == kw[k] {
      assert Upper(line[p..p + |kw|])[k] == UpperChar(line[p + k]);
    }
  }

  /**
   * The word `w` stands at `x` of the line, ignoring case, and ends there:
   * the character after it, if any, is no capital letter once upper-cased.
   */
  predicate RunAt(line: string, w: string, x: nat) {
    && x + |w| <= |line|
    && (forall k :: 0 <= k < |w| ==> UpperChar(line[x + k]) == w[k])
    && (x + |w| < |line| ==> !('A' <= UpperChar(line[x + |w|]) <= 'Z'))
  }

  /** Every character of a word of capitals standing at `x` is a capital once upper-cased. */
  lemma RunCapital(line: string, w: string, x: nat, k: nat)
    requires Capitals(w) && RunAt(line, w, x) && k < |w|
    ensures 'A' <= UpperChar(line[x + k]) <= 'Z'
  {
    assert UpperChar(line[x + k]) == w[k];
  }

  /** Two words of capitals that both stand and end at `x` are one word. */
  lemma RunUnique(line: string, w: string, v: string, x: nat)
    requires Capitals(w) && Capitals(v)
    requires RunAt(line, w, x) && RunAt(line, v, x)
    ensures w == v
  {
    if |w| < |v| {
      RunCapital(line, v, x, |w|);
      assert false;
    } else if |v| < |w| {
      RunCapital(line, w, x, |v|);
      assert false;
    } else {
      forall k | 0 <= k < |w| ensures w[k] == v[k] {
        assert UpperChar(line[x + k]) == w[k];
      }
    }
  }

  /**
   * A match of the two words `a b` at `p`: `a` stands and ends at `p`, `b`
   * right after the space, and no word character comes before `p`.
   */
  lemma TwoWordRuns(line: string, a: string, b: string, p: nat)
    requires Capitals(a) && Capitals(b) && MatchesAt(line, a + " " + b, p)
    ensures RunAt(line, a, p) && RunAt(line, b, p + |a| + 1)
    ensures p > 0 ==> !IsWordChar(line[p - 1])
  {
    var kw := a + " " + b;
    MatchChars(line, kw, p);
    forall k | 0 <= k < |a| ensures UpperChar(line[p + k]) == a[k] {
      assert kw[k] == a[k];
    }
    assert UpperChar(line[p + |a|]) == kw[|a|] == ' ';
    forall k | 0 <= k < |b| ensures UpperChar(line[p + |a| + 1 + k]) == b[k] {
      assert kw[|a| + 1 + k] == b[k];
    }
    assert UpperChar(line[p + |kw| - 1]) == kw[|kw| - 1] == b[|b| - 1];
    assert UpperChar(line[p]) == kw[0] == a[0];
  }

  /** Inside a match of `a b`, every character but the space is a word character. */
  lemma InnerWordChar(line: string, a: string, b: string, p: nat, q: nat)
    requires Capitals(a) && Capitals(b) && MatchesAt(line, a + " " + b, p)
    requires p <= q < p + |a + " " + b| && q != p + |a|
    ensures IsWordChar(line[q])
  {
    var kw := a + " " + b;
    MatchChars(line, kw, p);
    assert UpperChar(line[p + (q - p)]) == kw[q - p];
    if q - p < |a| {
      assert kw[q - p] == a[q - p];
    } else {
      assert kw[q - p] == b[q - p - |a| - 1];
    }
  }

  /**
   * A match of the two words `a2 b2` that begins inside a match of `a1 b1`
   * begins at its second word, and that word is `a2`.
   */
  lemma InnerMatch(line: string, a1: string, b1: string, p1: nat, a2: string, b2: string, p2: nat)
    requires Capitals(a1) && Capitals(b1) && Capitals(a2) && Capitals(b2)
    requires MatchesAt(line, a1 + " " + b1, p1) && MatchesAt(line, a2 + " " + b2, p2)
    requires p1 < p2 < p1 + |a1 + " " + b1|
    ensures p2 == p1 + |a1| + 1 && b1 == a2
  {
    TwoWordRuns(line, a1, b1, p1);
    TwoWordRuns(line, a2, b2, p2);
    if p2 - 1 != p1 + |a1| {
      InnerWordChar(line, a1, b1, p1, p2 - 1);
    }
    assert p2 == p1 + |a1| + 1;
    RunUnique(line, b1, a2, p2);
  }

  /** Two matches of two-word keywords at the same offset share their first word. */
  lemma SameStartMatch(line: string, a1: string, b1: string, a2: string, b2: string, p: nat)
    requires Capitals(a1) && Capitals(b1) && Capitals(a2) && Capitals(b2)
    requires MatchesAt(line, a1 + " " + b1, p) && MatchesAt(line, a2 + " " + b2, p)
    ensures a1 == a2
  {
    TwoWordRuns(line, a1, b1, p);
    TwoWordRuns(line, a2, b2, p);
    RunUnique(line, a1, a2, p);
  }

  /**
   * Matches of two compound keywords never overlap: a match beginning
   * inside another begins where it does and is of the same keyword.
   */
  lemma CompoundsApart(line: string, kw1: string, p1: nat, kw2: string, p2: nat)
    requires kw1 in CompoundKeywords() && kw2 in CompoundKeywords()
    requires MatchesAt(line, kw1, p1) && MatchesAt(line, kw2, p2)
    requires p1 <= p2 < p1 + |kw1|
    ensures p1 == p2 && kw1 == kw2
  {
    var a1, b1, a2, b2 := CompoundPair(kw1, kw2);
    if p1 == p2 {
      SameStartMatch(line, a1, b1, a2, b2, p1);
    } else {
      InnerMatch(line, a1, b1, p1, a2, b2, p2);
    }
  }

  // ---------------------------------------------------------------------------
  // Lexing one line

  /** The word `[a, b)` is bounded by whitespace or by the ends of the line. */
  predicate WholeWord(line: string, a: nat, b: nat)
    requires a <= b <= |line|
  {
    (a == 0 || IsWhitespace(line[a - 1])) && (b == |line| || IsWhitespace(line[b]))
  }

  /** One token per non-empty split piece, the pieces laid end to end from `o`. */
  function PieceTokens(line: string, pieces: seq<string>, o: nat): seq<Token>
    requires o + |Concat(pieces)| <= |line|
    decreases |pieces|
  {
    if pieces == [] then []
    else
      var w := pieces[0];
      (if w == [] then [] else [Tagged(Piece(WholeWord(line, o, o + |w|)), w)])
      + PieceTokens(line, pieces[1..], o + |w|)
  }

  /** The tokens of the text `[a, b)` between literals and compound keywords. */
  function GapTokens(line: string, a: nat, b: nat): seq<Token>
    requires a <= b <= |line|
  {
    SplitKeepJoin(line[a..b]);
    PieceTokens(line, SplitKeep(line[a..b]), a)
  }

  /** Every keyword of `kws` is canonical. */
  predicate AllCanonical(kws: seq<string>) {
    forall kw :: kw in kws ==> Canonical(kw)
  }

  /** A stretch of a line set apart before the split: a literal or a compound keyword. */
  datatype Cut = Cut(range: Range, role: Role)

  /**
   * The cut holds what its role says: a literal of the line, or a
   * word-bounded, case-insensitive match of one of `kws`.
   */
  predicate CutAt(line: string, kws: seq<string>, c: Cut) {
    match c.role
    case Literal => IsLiteral(line, c.range)
    case Compound(kw) => kw in kws && c.range.end == c.range.start + |kw| && MatchesAt(line, kw, c.range.start)
    case Piece(_) => false
  }

  /** Every cut holds what its role says. */
  predicate Found(line: string, kws: seq<string>, cuts: seq<Cut>)
    decreases |cuts|
  {
    cuts != [] ==> CutAt(line, kws, cuts[0]) && Found(line, kws, cuts[1..])
  }

  /** Non-empty cuts of the line at or after `from`, in order and without overlap. */
  predicate Laid(line: string, cuts: seq<Cut>, from: nat)
    decreases |cuts|
  {
    cuts != [] ==>
      && from <= cuts[0].range.start < cuts[0].range.end <= |line|
      && Laid(line, cuts[1..], cuts[0].range.end)
  }

  /** The ranges of the literal cuts, in order. */
  function LiteralCuts(cuts: seq<Cut>): seq<Range> {
    if cuts == [] then []
    else (if cuts[0].role == Literal then [cuts[0].range] else []) + LiteralCuts(cuts[1..])
  }

  /** Some cut holds offset `p`. */
  predicate InCut(cuts: seq<Cut>, p: nat) {
    exists i :: 0 <= i < |cuts| && cuts[i].range.start <= p < cuts[i].range.end
  }

  /** Every match of a keyword of `kws` that begins at or after `from` lies in a cut. */
  ghost predicate Covers(line: string, kws: seq<string>, cuts: seq<Cut>, from: nat) {
    forall p: nat, kw :: from <= p && kw in kws && MatchesAt(line, kw, p) ==> InCut(cuts, p)
  }

  /**
   * The left-to-right scan of a line that is not a comment, from `pos`,
   * with `rs` the literals still ahead: a literal starting at `pos` is cut
   * out whole; otherwise the first of the compound keywords `kws` that
   * matches at `pos` is cut out; otherwise the scan moves on one character.
   * The cuts are exactly the literals ahead, with the compound keywords
   * matched outside them, and every match of a compound keyword lies in a
   * cut.
   */
  function Cuts(line: string, kws: seq<string>, rs: seq<Range>, pos: nat): (cuts: seq<Cut>)
    requires AllCanonical(kws)
    requires pos <= |line|
    requires Ordered(line, rs, pos)
    ensures Laid(line, cuts, pos)
    ensures Found(line, kws, cuts)
    ensures LiteralCuts(cuts) == rs
    ensures Covers(line, kws, cuts, pos)
    decreases |line| - pos
  {
    if pos == |line| then
      assert |rs| > 0 ==> IsLiteral(line, rs[0]);
      []
    else if rs != [] && rs[0].start == pos then
      var rest := Cuts(line, kws, rs[1..], rs[0].end);
      CutsCons(line, kws, Cut(rs[0], Literal), rest, pos);
      CoversCons(line, kws, Cut(rs[0], Literal), rest, pos);
      HeadTail(rs);
      [Cut(rs[0], Literal)] + rest
    else match FirstMatching(line, kws, pos)
      case Some(kw) =>
        var e := pos + |kw|;
        assert Ordered(line, rs, e) by {
          if rs != [] && rs[0].start < e {
            CompoundHasNoQuote(line, kw, pos, rs[0].start);
          }
        }
        var rest := Cuts(line, kws, rs, e);
        CutsCons(line, kws, Cut(Range(pos, e), Compound(kw)), rest, pos);
        CoversCons(line, kws, Cut(Range(pos, e), Compound(kw)), rest, pos);
        [Cut(Range(pos, e), Compound(kw))] + rest
      case None =>
        var cuts := Cuts(line, kws, rs, pos + 1);
        CoversStep(line, kws, cuts, pos);
        cuts
  }

  /** A cut at `pos`, in front of cuts covering the matches from its end. */
  lemma CoversCons(line: string, kws: seq<string>, c: Cut, rest: seq<Cut>, pos: nat)
    requires c.range.start == pos && Covers(line, kws, rest, c.range.end)
    ensures Covers(line, kws, [c] + rest, pos)
  {
    forall p: nat, kw | pos <= p && kw in kws && MatchesAt(line, kw, p)
      ensures InCut([c] + rest, p)
    {
      if p < c.range.end {
        assert ([c] + rest)[0] == c;
      } else {
        var i :| 0 <= i < |rest| && rest[i].range.start <= p < rest[i].range.end;
        assert ([c] + rest)[i + 1] == rest[i];
      }
    }
  }

  /** No keyword matches at `pos`, so covering from `pos + 1` covers from `pos`. */
  lemma CoversStep(line: string, kws: seq<string>, cuts: seq<Cut>, pos: nat)
    requires Covers(line, kws, cuts, pos + 1)
    requires forall kw :: kw in kws ==> !MatchesAt(line, kw, pos)
    ensures Covers(line, kws, cuts, pos)
  {
  }

  /** A cut of the line at or after `pos`, in front of the cuts laid from its end. */
  lemma CutsCons(line: string, kws: seq<string>, c: Cut, rest: seq<Cut>, pos: nat)
    requires pos <= c.range.start < c.range.end <= |line| && CutAt(line, kws, c)
    requires Laid(line, rest, c.range.end) && Found(line, kws, rest)
    ensures Laid(line, [c] + rest, pos) && Found(line, kws, [c] + rest)
    ensures LiteralCuts([c] + rest) == (if c.role == Literal then [c.range] else []) + LiteralCuts(rest)
  {
    ConsTail(c, rest);
  }

  /**
   * The tokens of `[gap, |line|)`: the split pieces of each gap, then each
   * cut whole, with its role.
   */
  function Assemble(line: string, cuts: seq<Cut>, gap: nat): seq<Token>
    requires gap <= |line|
    requires Laid(line, cuts, gap)
    decreases |cuts|
  {
    if cuts == [] then GapTokens(line, gap, |line|)
    else
      var c := cuts[0];
      GapTokens(line, gap, c.range.start) + [Tagged(c.role, line[c.range.start..c.range.end])]
      + Assemble(line, cuts[1..], c.range.end)
  }

  lemma CompoundsCanonical()
    ensures AllCanonical(CompoundKeywords())
  {
    forall kw | kw in CompoundKeywords() ensures Canonical(kw) {
      CompoundHasClass(kw);
    }
  }

  /**
   * The cuts of a line that is not a comment: its literals, and the
   * compound keywords matched outside them, covering every match.
   */
  function LineCuts(line: string): (cuts: seq<Cut>)
    ensures Laid(line, cuts, 0) && Found(line, CompoundKeywords(), cuts)
    ensures LiteralCuts(cuts) == StringRanges(line)
    ensures Covers(line, CompoundKeywords(), cuts, 0)
  {
    StringRangesSound(line);
    CompoundsCanonical();
    Cuts(line, CompoundKeywords(), StringRanges(line), 0)
  }

  /** The tokens of a line that is not a comment. */
  function Lex(line: string): seq<Token> {
    Assemble(line, LineCuts(line), 0)
  }

  // ---------------------------------------------------------------------------
  // Styling

  /**
   * The category of a token: a literal is a string; a compound keyword takes
   * the class of the first list holding it, or stays plain; a blank piece, or
   * a piece that is only part of a word, is plain; a whole word is classified.
   */
  function Style(t: Token): (c: Category)
    ensures c == StringLiteral <==> t.tag == Literal
    ensures c != Comment
    ensures c.Keyword? && t.tag.Compound? ==> KeywordClassOf(Upper(t.tag.keyword)) == Some(c.kind)
    ensures t.tag.Compound? && KeywordClassOf(Upper(t.tag.keyword)).Some? ==>
              c == Keyword(KeywordClassOf(Upper(t.tag.keyword)).value)
    ensures c.Keyword? && t.tag.Piece? ==> KeywordClassOf(Upper(t.text)) == Some(c.kind)
    ensures c.Number? ==> t.tag.Piece? && IsNumber(t.text)
    ensures t.tag == Piece(true) && !AllWhitespace(t.text) ==> c == Classify(t.text)
    ensures t.tag.Piece? && (!t.tag.whole || AllWhitespace(t.text)) ==> c == Plain
  {
    TrimEmptyIff(t.text);
    match t.tag
    case Literal => StringLiteral
    case Compound(kw) =>
      (match KeywordClassOf(Upper(kw))
       case Some(k) => Keyword(k)
       case None => Plain)
    case Piece(whole) =>
      if Trim(t.text) == [] then Plain
      else if whole then Classify(t.text)
      else Plain
  }

  /** Each token drawn in its category, keeping its text. */
  function Styled(toks: seq<Token>): seq<Span> {
    seq(|toks|, i requires 0 <= i < |toks| => Tagged(Style(toks[i]), toks[i].text))
  }

  predicate IsCommentLine(line: string) {
    StartsWith(Trim(line), "--")
  }

  /**
   * The spans of one line: a comment line is one comment span, any other
   * line its styled tokens. Either way the spans' texts, read in order,
   * give back the line.
   */
  function LineSpans(line: string): (spans: seq<Span>)
    ensures Text(spans) == line
  {
    if IsCommentLine(line) then
      TextOne(Tagged(Comment, line));
      [Tagged(Comment, line)]
    else
      LexText(line);
      StyledText(Lex(line));
      Styled(Lex(line))
  }

  // ---------------------------------------------------------------------------
  // The whole buffer

  /** Each line's spans, numbered from 1 in order. */
  function NumberLines(lines: seq<string>): seq<NumberedLine> {
    seq(|lines|, i requires 0 <= i < |lines| => Numbered(i, lines[i]))
  }

  /** The line at index `i`, with its 1-based number and its spans. */
  function Numbered(i: nat, line: string): NumberedLine {
    NumberedLine(i + 1, LineSpans(line))
  }

  /** The text of each numbered line. */
  function LineTexts(out: seq<NumberedLine>): (texts: seq<string>)
    ensures |texts| == |out|
  {
    seq(|out|, i requires 0 <= i < |out| => Text(out[i].spans))
  }

  /**
   * `highlightSyntax`: one numbered line per `\n`-separated line of the
   * buffer, numbered from 1 in order, each holding that line's spans, whose
   * span texts joined with `\n` give the buffer back.
   */
  function HighlightSyntax(text: string): (out: seq<NumberedLine>)
    ensures |out| == CountNewlines(text) + 1 == |SplitLines(text)|
    ensures forall i :: 0 <= i < |out| ==> out[i].number == i + 1
    ensures forall i :: 0 <= i < |out| ==> out[i].spans == LineSpans(SplitLines(text)[i])
    ensures JoinLines(LineTexts(out)) == text
  {
    var lines := SplitLines(text);
    SplitLinesJoin(text);
    var out := NumberLines(lines);
    assert LineTexts(out) == lines;
    out
  }

  // ---------------------------------------------------------------------------
  // The tokens reproduce the text

  lemma {:induction false} PieceTokensText(line: string, pieces: seq<string>, o: nat)
    requires o + |Concat(pieces)| <= |line|
    ensures Text(PieceTokens(line, pieces, o)) == Concat(pieces)
    decreases |pieces|
  {
    if pieces != [] {
      var w := pieces[0];
      var head: seq<Token> := if w == [] then [] else [Tagged(Piece(WholeWord(line, o, o + |w|)), w)];
      PieceTokensText(line, pieces[1..], o + |w|);
      TextAppend(head, PieceTokens(line, pieces[1..], o + |w|));
      assert Text(head) == w by {
        if w != [] { assert Text(head) == w + Text<Role>([]); }
      }
    }
  }

  /** The text of one stretch set between two runs of stretches. */
  lemma TextOne<T>(t: Tagged<T>)
    ensures Text([t]) == t.text
  {
    assert Text([t]) == t.text + Text<T>([]);
  }

  lemma TextAround<T>(g: seq<Tagged<T>>, t: Tagged<T>, r: seq<Tagged<T>>)
    ensures Text(g + [t] + r) == Text(g) + t.text + Text(r)
  {
    TextAppend(g + [t], r);
    TextAppend(g, [t]);
    assert Text([t]) == t.text + Text<T>([]);
  }

  lemma GapTokensText(line: string, a: nat, b: nat)
    requires a <= b <= |line|
    ensures Text(GapTokens(line, a, b)) == line[a..b]
  {
    SplitKeepJoin(line[a..b]);
    PieceTokensText(line, SplitKeep(line[a..b]), a);
  }

  /** A gap, then a token for `[pos, e)`, then the text after `e`, give `[gap, |line|)`. */
  lemma GapTokenText(line: string, gap: nat, pos: nat, e: nat, t: Token, rest: seq<Token>)
    requires gap <= pos <= e <= |line|
    requires t.text == line[pos..e] && Text(rest) == line[e..]
    ensures Text(GapTokens(line, gap, pos) + [t] + rest) == line[gap..]
  {
    var g := GapTokens(line, gap, pos);
    GapTokensText(line, gap, pos);
    TextAround(g, t, rest);
    SliceThree(line, gap, pos, e);
  }

  /** The tokens of a line, read in order, give back the line. */
  lemma LexText(line: string)
    ensures Text(Lex(line)) == line
  {
    AssembleText(line, LineCuts(line), 0);
  }

  /** The text of `[gap, |line|)` comes back from the tokens. */
  lemma {:induction false} AssembleText(line: string, cuts: seq<Cut>, gap: nat)
    requires gap <= |line|
    requires Laid(line, cuts, gap)
    ensures Text(Assemble(line, cuts, gap)) == line[gap..]
    decreases |cuts|
  {
    if cuts == [] {
      GapTokensText(line, gap, |line|);
    } else {
      var r := cuts[0].range;
      var t := Tagged(cuts[0].role, line[r.start..r.end]);
      var rest := Assemble(line, cuts[1..], r.end);
      AssembleText(line, cuts[1..], r.end);
      GapTokenText(line, gap, r.start, r.end, t, rest);
    }
  }

  /** Styling the tokens after the first gives the spans after the first. */
  lemma StyledTail(toks: seq<Token>)
    requires toks != []
    ensures Styled(toks)[0] == Tagged(Style(toks[0]), toks[0].text)
    ensures Styled(toks)[1..] == Styled(toks[1..])
  {
  }

  lemma {:induction false} StyledText(toks: seq<Token>)
    ensures Text(Styled(toks)) == Text(toks)
  {
    if toks != [] {
      StyledTail(toks);
      StyledText(toks[1..]);
    }
  }

  // ---------------------------------------------------------------------------
  // Each token sits where it was found and is what its role says

  /**
   * The token `t` sits at offset `o` of the line: its text is there, it is
   * not empty, and a literal is a literal of the line, a compound keyword a
   * word-bounded case-insensitive match of one of `kws`, and a piece either
   * a whitespace run or a word without whitespace, `whole` exactly when it
   * is bounded by whitespace or the ends of the line.
   */
  predicate TokenAt(line: string, kws: seq<string>, t: Token, o: nat) {
    match t.tag
    case Literal => Sits(line, t.text, o) && IsLiteral(line, Range(o, o + |t.text|))
    case Compound(kw) => Sits(line, t.text, o) && kw in kws && |kw| == |t.text| && MatchesAt(line, kw, o)
    case Piece(whole) =>
      && Sits(line, t.text, o)
      && (AllWhitespace(t.text) || NoWhitespace(t.text))
      && whole == WholeWord(line, o, o + |t.text|)
  }

  /** The non-empty text `w` stands at offset `o` of the line. */
  predicate Sits(line: string, w: string, o: nat) {
    o + |w| <= |line| && line[o..o + |w|] == w && w != []
  }

  /** Every token sits at its place, the tokens laid end to end from `o`. */
  predicate Placed(line: string, kws: seq<string>, toks: seq<Token>, o: nat)
    decreases |toks|
  {
    toks != [] ==> TokenAt(line, kws, toks[0], o) && Placed(line, kws, toks[1..], o + |toks[0].text|)
  }

  /** Tokens placed from `o`, then tokens placed from their end `m`. */
  lemma {:induction false} PlacedAppend(line: string, kws: seq<string>, a: seq<Token>, b: seq<Token>, o: nat, m: nat)
    requires m == o + |Text(a)|
    requires Placed(line, kws, a, o) && Placed(line, kws, b, m)
    ensures Placed(line, kws, a + b, o)
    decreases |a|
  {
    if a == [] {
      assert a + b == b;
    } else {
      var o1 := o + |a[0].text|;
      assert Text(a) == a[0].text + Text(a[1..]);
      PlacedAppend(line, kws, a[1..], b, o1, m);
      ConsAppend(a, b);
      PlacedCons(line, kws, a[0], a[1..] + b, o, o1);
    }
  }

  /** A token placed at `o`, then tokens placed from its end `e`. */
  lemma PlacedCons(line: string, kws: seq<string>, t: Token, rest: seq<Token>, o: nat, e: nat)
    requires e == o + |t.text|
    requires TokenAt(line, kws, t, o) && Placed(line, kws, rest, e)
    ensures Placed(line, kws, [t] + rest, o)
  {
    ConsTail(t, rest);
  }

  /** Where `a + b` sits in the line at `o`, `a` sits at `o` and `b` right after it. */
  lemma SliceSplit(line: string, o: nat, a: string, b: string)
    requires o + |a + b| <= |line| && line[o..o + |a + b|] == a + b
    ensures line[o..o + |a|] == a
    ensures line[o + |a|..o + |a| + |b|] == b
  {
    assert line[o..o + |a|] == line[o..o + |a + b|][..|a|];
    assert line[o + |a|..o + |a| + |b|] == line[o..o + |a + b|][|a|..];
  }

  lemma {:induction false} PieceTokensPlaced(line: string, kws: seq<string>, pieces: seq<string>, o: nat)
    requires o + |Concat(pieces)| <= |line| && line[o..o + |Concat(pieces)|] == Concat(pieces)
    requires forall k :: 0 <= k < |pieces| ==> AllWhitespace(pieces[k]) || NoWhitespace(pieces[k])
    ensures Placed(line, kws, PieceTokens(line, pieces, o), o)
    decreases |pieces|
  {
    if pieces != [] {
      var w := pieces[0];
      assert Concat(pieces) == w + Concat(pieces[1..]);
      SliceSplit(line, o, w, Concat(pieces[1..]));
      PieceTokensPlaced(line, kws, pieces[1..], o + |w|);
      PieceStep(line, kws, w, PieceTokens(line, pieces[1..], o + |w|), o);
    }
  }

  /** A piece standing at `o`, in front of tokens placed from its end. */
  lemma PieceStep(line: string, kws: seq<string>, w: string, rest: seq<Token>, o: nat)
    requires o + |w| <= |line| && line[o..o + |w|] == w
    requires AllWhitespace(w) || NoWhitespace(w)
    requires Placed(line, kws, rest, o + |w|)
    ensures Placed(line, kws, (if w == [] then [] else [Tagged(Piece(WholeWord(line, o, o + |w|)), w)]) + rest, o)
  {
    if w != [] {
      PiecePlaced(line, kws, w, rest, o);
    } else {
      assert [] + rest == rest;
    }
  }

  /** A non-empty piece standing at `o`, in front of tokens placed from its end. */
  lemma PiecePlaced(line: string, kws: seq<string>, w: string, rest: seq<Token>, o: nat)
    requires w != [] && o + |w| <= |line| && line[o..o + |w|] == w
    requires AllWhitespace(w) || NoWhitespace(w)
    ensures Placed(line, kws, rest, o + |w|) ==>
              Placed(line, kws, [Tagged(Piece(WholeWord(line, o, o + |w|)), w)] + rest, o)
  {
    if Placed(line, kws, rest, o + |w|) {
      PlacedCons(line, kws, Tagged(Piece(WholeWord(line, o, o + |w|)), w), rest, o, o + |w|);
    }
  }

  lemma GapTokensPlaced(line: string, kws: seq<string>, a: nat, b: nat)
    requires a <= b <= |line|
    ensures Placed(line, kws, GapTokens(line, a, b), a)
    ensures |Text(GapTokens(line, a, b))| == b - a
  {
    SplitKeepJoin(line[a..b]);
    SplitKeepShape(line[a..b]);
    AlternatingPieces(SplitKeep(line[a..b]));
    PieceTokensPlaced(line, kws, SplitKeep(line[a..b]), a);
    GapTokensText(line, a, b);
  }

  /** A gap, a token placed at `pos`, and tokens placed from its end `e`. */
  lemma GapTokenPlaced(line: string, kws: seq<string>, gap: nat, pos: nat, t: Token, e: nat, rest: seq<Token>)
    requires gap <= pos <= |line| && e == pos + |t.text|
    requires TokenAt(line, kws, t, pos) && Placed(line, kws, rest, e)
    ensures Placed(line, kws, GapTokens(line, gap, pos) + [t] + rest, gap)
  {
    var g := GapTokens(line, gap, pos);
    GapTokensPlaced(line, kws, gap, pos);
    PlacedCons(line, kws, t, rest, pos, e);
    PlacedAppend(line, kws, g, [t] + rest, gap, pos);
    AppendAssoc(g, [t], rest);
  }

  /** The token of a cut sits at the cut's start. */
  lemma CutToken(line: string, kws: seq<string>, c: Cut)
    requires c.range.start < c.range.end <= |line|
    requires CutAt(line, kws, c)
    ensures TokenAt(line, kws, Tagged(c.role, line[c.range.start..c.range.end]), c.range.start)
  {
  }

  lemma {:induction false} AssemblePlaced(line: string, kws: seq<string>, cuts: seq<Cut>, gap: nat)
    requires gap <= |line|
    requires Laid(line, cuts, gap)
    requires Found(line, kws, cuts)
    ensures Placed(line, kws, Assemble(line, cuts, gap), gap)
    decreases |cuts|
  {
    if cuts == [] {
      GapTokensPlaced(line, kws, gap, |line|);
    } else {
      AssemblePlaced(line, kws, cuts[1..], cuts[0].range.end);
      AssembleCutPlaced(line, kws, cuts, gap);
    }
  }

  /** The first cut's gap and token, placed in front of the placed tokens after the cut. */
  lemma AssembleCutPlaced(line: string, kws: seq<string>, cuts: seq<Cut>, gap: nat)
    requires gap <= |line| && cuts != []
    requires Laid(line, cuts, gap) && CutAt(line, kws, cuts[0])
    requires Placed(line, kws, Assemble(line, cuts[1..], cuts[0].range.end), cuts[0].range.end)
    ensures Placed(line, kws, Assemble(line, cuts, gap), gap)
  {
    var r := cuts[0].range;
    var t := Tagged(cuts[0].role, line[r.start..r.end]);
    CutToken(line, kws, cuts[0]);
    GapTokenPlaced(line, kws, gap, r.start, t, r.end, Assemble(line, cuts[1..], r.end));
  }

  /** Every token of a line that is not a comment sits at its place in the line. */
  lemma LexPlaced(line: string)
    ensures Placed(line, CompoundKeywords(), Lex(line), 0)
  {
    StringRangesSound(line);
    CompoundsCanonical();
    AssemblePlaced(line, CompoundKeywords(), LineCuts(line), 0);
  }

  // ---------------------------------------------------------------------------
  // The literal tokens are exactly the literals the regular expression finds

  lemma {:induction false} PieceTokensNoLiteral(line: string, pieces: seq<string>, o: nat, p: nat)
    requires o + |Concat(pieces)| <= |line|
    ensures RangesOf(PieceTokens(line, pieces, o), Literal, p) == []
    decreases |pieces|
  {
    if pieces != [] {
      var w := pieces[0];
      var rest := PieceTokens(line, pieces[1..], o + |w|);
      PieceTokensNoLiteral(line, pieces[1..], o + |w|, p + |w|);
      PieceTokensNoLiteral(line, pieces[1..], o + |w|, p);
      if w != [] {
        var t := Tagged(Piece(WholeWord(line, o, o + |w|)), w);
        assert PieceTokens(line, pieces, o) == [t] + rest;
        ConsTail(t, rest);
      } else {
        assert PieceTokens(line, pieces, o) == rest;
      }
    }
  }

  /** A stretch with no range tagged `tag`, then `t`, then `rest`. */
  lemma GapThenRanges<T>(g: seq<Tagged<T>>, t: Tagged<T>, rest: seq<Tagged<T>>, tag: T, gap: nat, pos: nat)
    requires RangesOf(g, tag, gap) == [] && gap + |Text(g)| == pos
    ensures RangesOf(g + [t] + rest, tag, gap)
         == (if t.tag == tag then [Range(pos, pos + |t.text|)] else []) + RangesOf(rest, tag, pos + |t.text|)
  {
    AppendAssoc(g, [t], rest);
    RangesOfAppend(g, [t] + rest, tag, gap);
    ConsRanges(t, rest, tag, pos);
    EmptyAppend(RangesOf([t] + rest, tag, pos));
  }

  /** A gap holds no literal, and its tokens span it exactly. */
  lemma GapNoLiterals(line: string, a: nat, b: nat)
    requires a <= b <= |line|
    ensures RangesOf(GapTokens(line, a, b), Literal, a) == []
    ensures |Text(GapTokens(line, a, b))| == b - a
  {
    SplitKeepJoin(line[a..b]);
    PieceTokensNoLiteral(line, SplitKeep(line[a..b]), a, a);
    GapTokensText(line, a, b);
  }

  lemma ConsRanges<T>(t: Tagged<T>, rest: seq<Tagged<T>>, tag: T, o: nat)
    ensures RangesOf([t] + rest, tag, o)
         == (if t.tag == tag then [Range(o, o + |t.text|)] else []) + RangesOf(rest, tag, o + |t.text|)
  {
    ConsTail(t, rest);
  }

  lemma {:induction false} AssembleLiterals(line: string, cuts: seq<Cut>, gap: nat)
    requires gap <= |line|
    requires Laid(line, cuts, gap)
    ensures RangesOf(Assemble(line, cuts, gap), Literal, gap) == LiteralCuts(cuts)
    decreases |cuts|
  {
    if cuts == [] {
      GapNoLiterals(line, gap, |line|);
    } else {
      AssembleLiterals(line, cuts[1..], cuts[0].range.end);
      AssembleCutLiterals(line, cuts, gap);
    }
  }

  /** The first cut's gap and token, in front of the tokens after the cut. */
  lemma AssembleCutLiterals(line: string, cuts: seq<Cut>, gap: nat)
    requires gap <= |line| && cuts != [] && Laid(line, cuts, gap)
    requires RangesOf(Assemble(line, cuts[1..], cuts[0].range.end), Literal, cuts[0].range.end) == LiteralCuts(cuts[1..])
    ensures RangesOf(Assemble(line, cuts, gap), Literal, gap) == LiteralCuts(cuts)
  {
    var head: seq<Range> := if cuts[0].role == Literal then [cuts[0].range] else [];
    AssembleCutRanges(line, cuts, gap, head, Assemble(line, cuts[1..], cuts[0].range.end));
    assert LiteralCuts(cuts) == head + LiteralCuts(cuts[1..]);
  }

  /** The literal ranges of the tokens from `gap`: the first cut's, then those after the cut. */
  lemma AssembleCutRanges(line: string, cuts: seq<Cut>, gap: nat, head: seq<Range>, rest: seq<Token>)
    requires gap <= |line| && cuts != [] && Laid(line, cuts, gap)
    requires head == if cuts[0].role == Literal then [cuts[0].range] else []
    requires rest == Assemble(line, cuts[1..], cuts[0].range.end)
    ensures RangesOf(Assemble(line, cuts, gap), Literal, gap) == head + RangesOf(rest, Literal, cuts[0].range.end)
  {
    var r := cuts[0].range;
    var t := Tagged(cuts[0].role, line[r.start..r.end]);
    var g := GapTokens(line, gap, r.start);
    AssembleHead(line, cuts, gap);
    GapNoLiterals(line, gap, r.start);
    assert |t.text| == r.end - r.start;
    CutThenRanges(Assemble(line, cuts, gap), g, t, rest, Literal, gap, r, head);
  }

  /** `GapThenRanges` with the cut's range `r` named for the token after the gap. */
  lemma CutThenRanges<T>(all: seq<Tagged<T>>, g: seq<Tagged<T>>, t: Tagged<T>, rest: seq<Tagged<T>>, tag: T, gap: nat, r: Range, head: seq<Range>)
    requires all == g + [t] + rest
    requires RangesOf(g, tag, gap) == [] && gap + |Text(g)| == r.start && r.start + |t.text| == r.end
    requires head == if t.tag == tag then [r] else []
    ensures RangesOf(all, tag, gap) == head + RangesOf(rest, tag, r.end)
  {
    GapThenRanges(g, t, rest, tag, gap, r.start);
    assert Range(r.start, r.start + |t.text|) == r;
  }

  /**
   * The literal tokens of a line that is not a comment are exactly the
   * literals the regular expression finds, in order, at their offsets.
   */
  lemma LexLiterals(line: string)
    ensures RangesOf(Lex(line), Literal, 0) == StringRanges(line)
  {
    AssembleLiterals(line, LineCuts(line), 0);
  }

  // ---------------------------------------------------------------------------
  // What a line's spans mean

  /** The offset in the line of token `i`, the tokens laid end to end from 0. */
  function OffsetOf<T>(ps: seq<Tagged<T>>, i: nat): nat
    requires i <= |ps|
    decreases i
  {
    if i == 0 then 0 else |ps[0].text| + OffsetOf(ps[1..], i - 1)
  }

  /** The offset of stretch `i` is the length of the text before it. */
  lemma {:induction false} OffsetText<T>(ps: seq<Tagged<T>>, i: nat)
    requires i <= |ps|
    ensures OffsetOf(ps, i) == |Text(ps[..i])|
    decreases i
  {
    if i > 0 {
      OffsetText(ps[1..], i - 1);
      PrefixTail(ps, i);
      TextAppend([ps[0]], ps[1..][..i - 1]);
      assert Text([ps[0]]) == ps[0].text + Text<T>([]);
    }
  }

  /** Token `i` of tokens placed from `o` sits at `o` plus the length of the text before it. */
  lemma {:induction false} PlacedIndex(line: string, kws: seq<string>, toks: seq<Token>, o: nat, i: nat)
    requires Placed(line, kws, toks, o) && i < |toks|
    ensures TokenAt(line, kws, toks[i], o + OffsetOf(toks, i))
    decreases i
  {
    if i > 0 {
      PlacedIndex(line, kws, toks[1..], o + |toks[0].text|, i - 1);
      assert toks[1..][i - 1] == toks[i];
    }
  }

  /** Token `i` of tokens placed from 0 sits at its offset. */
  lemma PlacedAt(line: string, kws: seq<string>, toks: seq<Token>, i: nat)
    requires Placed(line, kws, toks, 0) && i < |toks|
    ensures TokenAt(line, kws, toks[i], OffsetOf(toks, i))
  {
    PlacedIndex(line, kws, toks, 0, i);
  }

  /** Styling keeps the tokens' texts, so it keeps their offsets. */
  lemma StyledOffsets(toks: seq<Token>, i: nat)
    requires i <= |toks|
    ensures OffsetOf(Styled(toks), i) == OffsetOf(toks, i)
  {
    SameTextsOffsets(Styled(toks), toks, i);
  }

  /** Stretches with the same texts, one by one, have the same offsets. */
  lemma {:induction false} SameTextsOffsets<S, T>(a: seq<Tagged<S>>, b: seq<Tagged<T>>, i: nat)
    requires |a| == |b| && i <= |a|
    requires forall k :: 0 <= k < |a| ==> a[k].text == b[k].text
    ensures OffsetOf(a, i) == OffsetOf(b, i)
    decreases i
  {
    if i > 0 {
      assert a[0].text == b[0].text;
      SameTextsOffsets(a[1..], b[1..], i - 1);
    }
  }

  /** A compound keyword token, upper-cased, is its keyword. */
  lemma CompoundTokenUpper(line: string, kws: seq<string>, t: Token, o: nat)
    requires TokenAt(line, kws, t, o) && t.tag.Compound?
    ensures Upper(t.text) == t.tag.keyword
  {
  }

  /**
   * Every span is non-empty; a keyword span's text, upper-cased, has that
   * keyword class (so it is in that list and in no list of higher
   * priority); a number span's text is a number.
   */
  predicate SpansClassified(spans: seq<Span>) {
    forall i :: 0 <= i < |spans| ==>
      && spans[i].text != []
      && (spans[i].tag.Keyword? ==> KeywordClassOf(Upper(spans[i].text)) == Some(spans[i].tag.kind))
      && (spans[i].tag.Number? ==> IsNumber(spans[i].text))
  }

  predicate NoComment(spans: seq<Span>) {
    forall i :: 0 <= i < |spans| ==> spans[i].tag != Comment
  }

  /** The styled spans of placed tokens are classified and hold no comment. */
  lemma StyledClassified(line: string, kws: seq<string>, toks: seq<Token>)
    requires Placed(line, kws, toks, 0)
    ensures SpansClassified(Styled(toks))
    ensures NoComment(Styled(toks))
  {
    forall i | 0 <= i < |toks|
      ensures toks[i].text != []
      ensures toks[i].tag.Compound? ==> Upper(toks[i].text) == Upper(toks[i].tag.keyword)
    {
      PlacedAt(line, kws, toks, i);
      if toks[i].tag.Compound? {
        CompoundTokenUpper(line, kws, toks[i], OffsetOf(toks, i));
        UpperIdempotent(toks[i].text);
      }
    }
  }

  /**
   * The spans of every line are classified, and only a comment line has a
   * comment span.
   */
  lemma LineClassified(line: string)
    ensures SpansClassified(LineSpans(line))
    ensures !IsCommentLine(line) ==> NoComment(LineSpans(line))
  {
    if IsCommentLine(line) {
      CommentClassified(line);
    } else {
      LexPlaced(line);
      StyledClassified(line, CompoundKeywords(), Lex(line));
    }
  }

  lemma CommentClassified(line: string)
    requires IsCommentLine(line)
    ensures SpansClassified([Tagged(Comment, line)])
  {
    CommentLineNotEmpty(line);
    var spans := [Tagged(Comment, line)];
    forall i | 0 <= i < |spans|
      ensures spans[i] == Tagged(Comment, line)
    {
    }
  }

  lemma CommentLineNotEmpty(line: string)
    requires IsCommentLine(line)
    ensures line != []
  {
    assert |Trim(line)| >= 2;
  }

  /**
   * The split piece `w`, drawn in category `c`, stands at offset `o` of the
   * line; a whitespace run is plain; a word is classified when whitespace
   * or the ends of the line bound it, and plain when it is only part of a
   * word.
   */
  predicate WordStyled(line: string, w: string, c: Category, o: nat) {
    && Sits(line, w, o)
    && (AllWhitespace(w) ==> c == Plain)
    && (NoWhitespace(w) ==> c == if WholeWord(line, o, o + |w|) then Classify(w) else Plain)
  }

  /** Every split piece among `toks` is drawn in `spans` as `WordStyled` says. */
  predicate WordsStyled(line: string, toks: seq<Token>, spans: seq<Span>)
    requires |spans| == |toks|
  {
    forall i :: 0 <= i < |toks| && toks[i].tag.Piece? ==>
      WordStyled(line, toks[i].text, spans[i].tag, OffsetOf(spans, i))
  }

  lemma StyledWords(line: string, kws: seq<string>, toks: seq<Token>)
    requires Placed(line, kws, toks, 0)
    ensures WordsStyled(line, toks, Styled(toks))
  {
    var spans := Styled(toks);
    forall i | 0 <= i < |toks| && toks[i].tag.Piece?
      ensures WordStyled(line, toks[i].text, spans[i].tag, OffsetOf(spans, i))
    {
      PlacedAt(line, kws, toks, i);
      StyledOffsets(toks, i);
      PieceStyled(line, kws, toks[i], OffsetOf(toks, i));
    }
  }

  /** The style of one piece placed at `o`. */
  lemma PieceStyled(line: string, kws: seq<string>, t: Token, o: nat)
    requires TokenAt(line, kws, t, o) && t.tag.Piece?
    ensures WordStyled(line, t.text, Style(t), o)
  {
    if NoWhitespace(t.text) {
      assert !IsWhitespace(t.text[0]);
    }
  }

  /**
   * In a line that is not a comment, each piece of the whitespace split is
   * styled by its text and place: a whitespace run is plain, a whole word is
   * classified, and a piece that is only part of a word is plain.
   */
  lemma LineWords(line: string)
    requires !IsCommentLine(line)
    ensures |LineSpans(line)| == |Lex(line)|
    ensures WordsStyled(line, Lex(line), LineSpans(line))
  {
    LexPlaced(line);
    StyledWords(line, CompoundKeywords(), Lex(line));
  }

  /** The string-literal spans sit exactly where the literal tokens do. */
  lemma StyledRanges(toks: seq<Token>, o: nat)
    ensures RangesOf(Styled(toks), StringLiteral, o) == RangesOf(toks, Literal, o)
  {
    var spans := Styled(toks);
    forall k | 0 <= k < |toks|
      ensures spans[k].text == toks[k].text
      ensures spans[k].tag == StringLiteral <==> toks[k].tag == Literal
    {
    }
    SameTagsRanges(spans, toks, StringLiteral, Literal, o);
  }

  /**
   * Stretches with the same texts, one by one, tagged `s` exactly where the
   * others are tagged `t`, have the same ranges.
   */
  lemma {:induction false} SameTagsRanges<S, T>(a: seq<Tagged<S>>, b: seq<Tagged<T>>, s: S, t: T, o: nat)
    requires |a| == |b|
    requires forall k :: 0 <= k < |a| ==> a[k].text == b[k].text && (a[k].tag == s <==> b[k].tag == t)
    ensures RangesOf(a, s, o) == RangesOf(b, t, o)
    decreases |a|
  {
    if a != [] {
      assert a[0].text == b[0].text && (a[0].tag == s <==> b[0].tag == t);
      SameTagsRanges(a[1..], b[1..], s, t, o + |a[0].text|);
    }
  }

  /**
   * On a line that is not a comment, the string-literal spans are exactly
   * the ranges the regular expression finds, in order, at their offsets.
   */
  lemma LineLiterals(line: string)
    requires !IsCommentLine(line)
    ensures RangesOf(LineSpans(line), StringLiteral, 0) == StringRanges(line)
  {
    LexLiterals(line);
    StyledRanges(Lex(line), 0);
  }

  /**
   * A line is one comment span when its trimmed text starts with `--`, that
   * is when `--` follows nothing but whitespace; otherwise no span is a
   * comment.
   */
  lemma LineComment(line: string)
    ensures IsCommentLine(line) <==> exists k: nat :: DashesAfterBlank(line, k)
    ensures IsCommentLine(line) ==> |LineSpans(line)| == 1 && LineSpans(line)[0] == Tagged(Comment, line)
    ensures (exists i :: 0 <= i < |LineSpans(line)| && LineSpans(line)[i].tag == Comment) <==> IsCommentLine(line)
  {
    TrimStartsWithDashes(line);
    LineClassified(line);
    if !IsCommentLine(line) {
      assert NoComment(LineSpans(line));
    }
  }

  // ---------------------------------------------------------------------------
  // Word pieces lie outside the literals

  /** Every range of `RangesOf(ps, tag, o)` starts at or after `o`. */
  lemma {:induction false} RangesFrom<T>(ps: seq<Tagged<T>>, tag: T, o: nat)
    ensures forall r :: r in RangesOf(ps, tag, o) ==> o <= r.start
    decreases |ps|
  {
    if ps != [] {
      RangesFrom(ps[1..], tag, o + |ps[0].text|);
    }
  }

  /** No range starting after `p` holds `p`. */
  lemma NotBefore<T>(ps: seq<Tagged<T>>, tag: T, o: nat, p: int)
    requires p < o
    ensures !InString(RangesOf(ps, tag, o), p)
  {
    RangesFrom(ps, tag, o);
    var rs := RangesOf(ps, tag, o);
    assert forall k :: 0 <= k < |rs| ==> rs[k] in rs;
  }

  /**
   * A non-empty stretch with another tag does not start inside any of the
   * ranges tagged `tag`.
   */
  lemma {:induction false} OtherTagOutside<T>(ps: seq<Tagged<T>>, tag: T, o: nat, i: nat)
    requires i < |ps| && ps[i].tag != tag && ps[i].text != []
    ensures !InString(RangesOf(ps, tag, o), o + OffsetOf(ps, i))
    decreases |ps|
  {
    var o1 := o + |ps[0].text|;
    var p := o + OffsetOf(ps, i);
    if i == 0 {
      NotBefore(ps[1..], tag, o1, p);
    } else {
      assert p == o1 + OffsetOf(ps[1..], i - 1);
      assert ps[1..][i - 1] == ps[i];
      OtherTagOutside(ps[1..], tag, o1, i - 1);
    }
    RangesStepOutside(ps, tag, o, p);
  }

  /** Outside the first stretch's range, if it has one, and outside the rest's ranges. */
  lemma RangesStepOutside<T>(ps: seq<Tagged<T>>, tag: T, o: nat, p: int)
    requires ps != [] && !InString(RangesOf(ps[1..], tag, o + |ps[0].text|), p)
    requires ps[0].tag == tag ==> !(o <= p < o + |ps[0].text|)
    ensures !InString(RangesOf(ps, tag, o), p)
  {
    var head: seq<Range> := if ps[0].tag == tag then [Range(o, o + |ps[0].text|)] else [];
    var rest := RangesOf(ps[1..], tag, o + |ps[0].text|);
    assert RangesOf(ps, tag, o) == head + rest;
    assert !InString(head, p);
    InStringAppend(head, rest, p);
  }

  /**
   * In a line that is not a comment, no piece of the whitespace split starts
   * inside a literal the regular expression finds.
   */
  lemma LinePiecesOutsideLiterals(line: string)
    requires !IsCommentLine(line)
    ensures forall i :: 0 <= i < |Lex(line)| && Lex(line)[i].tag.Piece? ==>
              !InString(StringRanges(line), OffsetOf(Lex(line), i))
  {
    LexPlaced(line);
    LexLiterals(line);
    PiecesOutside(line, CompoundKeywords(), Lex(line));
  }

  /** No piece among placed tokens starts inside one of their literals. */
  lemma PiecesOutside(line: string, kws: seq<string>, toks: seq<Token>)
    requires Placed(line, kws, toks, 0)
    ensures forall i :: 0 <= i < |toks| && toks[i].tag.Piece? ==>
              !InString(RangesOf(toks, Literal, 0), OffsetOf(toks, i))
  {
    forall i | 0 <= i < |toks| && toks[i].tag.Piece?
      ensures !InString(RangesOf(toks, Literal, 0), OffsetOf(toks, i))
    {
      PlacedAt(line, kws, toks, i);
      OtherTagOutside(toks, Literal, 0, i);
    }
  }

  // ---------------------------------------------------------------------------
  // Compound keywords outside the literals are drawn as keywords

  /** The offset of a stretch after `a` is the length of `a`'s text plus its offset in `b`. */
  lemma {:induction false} OffsetAppend<T>(a: seq<Tagged<T>>, b: seq<Tagged<T>>, k: nat)
    requires k <= |b|
    ensures OffsetOf(a + b, |a| + k) == |Text(a)| + OffsetOf(b, k)
    decreases |a|
  {
    if a == [] {
      assert a + b == b;
    } else {
      AppendTail(a, b);
      OffsetAppend(a[1..], b, k);
    }
  }

  /** Cut `j` of found cuts holds what its role says. */
  lemma FoundAt(line: string, kws: seq<string>, cuts: seq<Cut>, j: nat)
    requires Found(line, kws, cuts) && j < |cuts|
    ensures CutAt(line, kws, cuts[j])
  {
    FoundDrop(line, kws, cuts, j);
    assert cuts[j..][0] == cuts[j];
  }

  /** Cuts that all hold what their roles say still do after dropping the first `j`. */
  lemma {:induction false} FoundDrop(line: string, kws: seq<string>, cuts: seq<Cut>, j: nat)
    requires Found(line, kws, cuts) && j <= |cuts|
    ensures Found(line, kws, cuts[j..])
    decreases j
  {
    if j > 0 {
      FoundDrop(line, kws, cuts[1..], j - 1);
      assert cuts[1..][j - 1..] == cuts[j..];
    }
  }

  /** Cut `j` of cuts laid from `from` is a non-empty range of the line at or after `from`. */
  lemma {:induction false} LaidAt(line: string, cuts: seq<Cut>, from: nat, j: nat)
    requires Laid(line, cuts, from) && j < |cuts|
    ensures from <= cuts[j].range.start < cuts[j].range.end <= |line|
    decreases j
  {
    if j > 0 {
      LaidAt(line, cuts[1..], cuts[0].range.end, j - 1);
      assert cuts[1..][j - 1] == cuts[j];
    }
  }

  /** An offset inside a literal cut is inside one of the literal ranges. */
  lemma LiteralCutIn(cuts: seq<Cut>, j: nat, p: nat)
    requires j < |cuts| && cuts[j].range.start <= p < cuts[j].range.end
    ensures cuts[j].role == Literal ==> InString(LiteralCuts(cuts), p)
  {
    if cuts[j].role == Literal {
      var m := LiteralCutIndex(cuts, j);
      assert LiteralCuts(cuts)[m].start <= p < LiteralCuts(cuts)[m].end;
    }
  }

  /** A literal cut is one of the literal ranges. */
  lemma {:induction false} LiteralCutIndex(cuts: seq<Cut>, j: nat) returns (m: nat)
    requires j < |cuts| && cuts[j].role == Literal
    ensures m < |LiteralCuts(cuts)| && LiteralCuts(cuts)[m] == cuts[j].range
    decreases j
  {
    var head: seq<Range> := if cuts[0].role == Literal then [cuts[0].range] else [];
    var tail := LiteralCuts(cuts[1..]);
    assert LiteralCuts(cuts) == head + tail;
    if j == 0 {
      m := 0;
    } else {
      assert cuts[1..][j - 1] == cuts[j];
      var k := LiteralCutIndex(cuts[1..], j - 1);
      m := |head| + k;
      assert (head + tail)[m] == tail[k];
    }
  }

  /** Cut `j` becomes one token, with its role and its text, at the cut's start. */
  lemma {:induction false} AssembleCut(line: string, cuts: seq<Cut>, gap: nat, j: nat) returns (i: nat)
    requires gap <= |line| && Laid(line, cuts, gap) && j < |cuts|
    ensures gap <= cuts[j].range.start < cuts[j].range.end <= |line|
    ensures i < |Assemble(line, cuts, gap)|
    ensures Assemble(line, cuts, gap)[i] == Tagged(cuts[j].role, line[cuts[j].range.start..cuts[j].range.end])
    ensures gap + OffsetOf(Assemble(line, cuts, gap), i) == cuts[j].range.start
    decreases j
  {
    LaidAt(line, cuts, gap, j);
    var r := cuts[0].range;
    var g := GapTokens(line, gap, r.start);
    var t := Tagged(cuts[0].role, line[r.start..r.end]);
    var rest := Assemble(line, cuts[1..], r.end);
    AssembleHead(line, cuts, gap);
    GapNoLiterals(line, gap, r.start);
    if j == 0 {
      i := |g|;
      TokenAfter(g, t, rest);
    } else {
      var i1 := AssembleCut(line, cuts[1..], r.end, j - 1);
      assert cuts[1..][j - 1] == cuts[j];
      i := |g| + 1 + i1;
      TokenBeyond(g, t, rest, i1);
    }
  }

  /** The tokens from `gap`: the first gap's pieces, the first cut's token, the tokens after it. */
  lemma AssembleHead(line: string, cuts: seq<Cut>, gap: nat)
    requires gap <= |line| && Laid(line, cuts, gap) && cuts != []
    ensures Assemble(line, cuts, gap)
         == (GapTokens(line, gap, cuts[0].range.start) + [Tagged(cuts[0].role, line[cuts[0].range.start..cuts[0].range.end])])
            + Assemble(line, cuts[1..], cuts[0].range.end)
  {
  }

  /** The stretch right after `g` is `t`, at the length of `g`'s text. */
  lemma TokenAfter<T>(g: seq<Tagged<T>>, t: Tagged<T>, rest: seq<Tagged<T>>)
    ensures ((g + [t]) + rest)[|g|] == t
    ensures OffsetOf((g + [t]) + rest, |g|) == |Text(g)|
  {
    AppendAssoc(g, [t], rest);
    OffsetAppend(g, [t] + rest, 0);
  }

  /** Stretch `k` of `rest`, after `g` and `t`, sits past both their texts. */
  lemma TokenBeyond<T>(g: seq<Tagged<T>>, t: Tagged<T>, rest: seq<Tagged<T>>, k: nat)
    requires k < |rest|
    ensures ((g + [t]) + rest)[|g| + 1 + k] == rest[k]
    ensures OffsetOf((g + [t]) + rest, |g| + 1 + k) == |Text(g)| + |t.text| + OffsetOf(rest, k)
  {
    OffsetAppend(g + [t], rest, k);
    TextAppend(g, [t]);
    assert Text([t]) == t.text + Text<T>([]);
  }

  /** Some cut holds a match of a keyword the cuts cover. */
  lemma CoveringCut(line: string, kws: seq<string>, cuts: seq<Cut>, kw: string, p: nat) returns (j: nat)
    requires Covers(line, kws, cuts, 0) && kw in kws && MatchesAt(line, kw, p)
    ensures j < |cuts| && cuts[j].range.start <= p < cuts[j].range.end
  {
    assert InCut(cuts, p);
    j :| 0 <= j < |cuts| && cuts[j].range.start <= p < cuts[j].range.end;
  }

  /** A found cut holding `p`, with `p` outside the literal cuts, is a compound keyword. */
  lemma CompoundRole(line: string, kws: seq<string>, cuts: seq<Cut>, j: nat, p: nat)
    requires Found(line, kws, cuts) && j < |cuts| && cuts[j].range.start <= p < cuts[j].range.end
    requires !InString(LiteralCuts(cuts), p)
    ensures cuts[j].role.Compound? && CutAt(line, kws, cuts[j])
  {
    FoundAt(line, kws, cuts, j);
    LiteralCutIn(cuts, j, p);
  }

  /** A compound keyword cut with that keyword's bounds is that cut. */
  lemma CutFrom(c: Cut, kw: string, p: nat)
    requires c.role.Compound? && c.range.start == p && c.range.end == p + |kw| && c.role.keyword == kw
    ensures c == Cut(Range(p, p + |kw|), Compound(kw))
  {
  }

  /** A compound keyword cut holding a match of a compound keyword is that match. */
  lemma CutIsMatch(line: string, c: Cut, kw: string, p: nat)
    requires c.role.Compound? && CutAt(line, CompoundKeywords(), c)
    requires c.range.start <= p < c.range.end
    requires kw in CompoundKeywords() && MatchesAt(line, kw, p)
    ensures c.range.start == p && c.range.end == p + |kw| && c.role.keyword == kw
  {
    var kw1, p1 := c.role.keyword, c.range.start;
    assert kw1 in CompoundKeywords() && MatchesAt(line, kw1, p1) && p1 <= p < p1 + |kw1|;
    CompoundsApart(line, kw1, p1, kw, p);
  }

  /**
   * Among cuts that cover every compound keyword match and whose literals
   * leave `p` outside, a compound keyword matching at `p` is a cut of its
   * own, starting at `p`.
   */
  lemma CompoundCut(line: string, cuts: seq<Cut>, kw: string, p: nat) returns (j: nat)
    requires Found(line, CompoundKeywords(), cuts)
    requires Covers(line, CompoundKeywords(), cuts, 0)
    requires kw in CompoundKeywords() && MatchesAt(line, kw, p)
    requires !InString(LiteralCuts(cuts), p)
    ensures j < |cuts| && cuts[j] == Cut(Range(p, p + |kw|), Compound(kw))
  {
    j := CoveringCut(line, CompoundKeywords(), cuts, kw, p);
    CompoundRole(line, CompoundKeywords(), cuts, j, p);
    CutIsMatch(line, cuts[j], kw, p);
    CutFrom(cuts[j], kw, p);
  }

  /**
   * A compound keyword matching outside every literal of a line is one
   * token of the line, at the match, holding the matched text.
   */
  lemma LineCompoundToken(line: string, kw: string, p: nat) returns (i: nat)
    requires kw in CompoundKeywords() && MatchesAt(line, kw, p)
    requires !InString(StringRanges(line), p)
    ensures i < |Lex(line)| && OffsetOf(Lex(line), i) == p
    ensures Lex(line)[i] == Tagged(Compound(kw), line[p..p + |kw|])
  {
    var j := LineCompoundCut(line, kw, p);
    i := CompoundCutToken(line, LineCuts(line), j, kw, p);
  }

  /** The token of a compound keyword cut at `p`. */
  lemma CompoundCutToken(line: string, cuts: seq<Cut>, j: nat, kw: string, p: nat) returns (i: nat)
    requires Laid(line, cuts, 0) && j < |cuts| && cuts[j] == Cut(Range(p, p + |kw|), Compound(kw))
    ensures p + |kw| <= |line|
    ensures i < |Assemble(line, cuts, 0)| && OffsetOf(Assemble(line, cuts, 0), i) == p
    ensures Assemble(line, cuts, 0)[i] == Tagged(Compound(kw), line[p..p + |kw|])
  {
    i := AssembleCut(line, cuts, 0, j);
  }

  /** A compound keyword matching outside every literal of a line is one of the line's cuts. */
  lemma LineCompoundCut(line: string, kw: string, p: nat) returns (j: nat)
    requires kw in CompoundKeywords() && MatchesAt(line, kw, p)
    requires !InString(StringRanges(line), p)
    ensures j < |LineCuts(line)| && LineCuts(line)[j] == Cut(Range(p, p + |kw|), Compound(kw))
  {
    j := CompoundCut(line, LineCuts(line), kw, p);
  }

  /**
   * On a line that is not a comment, every match of a compound keyword
   * outside the literals is drawn as one keyword span, of the keyword's
   * class, at the match, holding the matched text.
   */
  lemma LineCompounds(line: string, kw: string, p: nat)
    requires !IsCommentLine(line)
    requires kw in CompoundKeywords() && MatchesAt(line, kw, p)
    requires !InString(StringRanges(line), p)
    ensures KeywordClassOf(kw).Some?
    ensures exists i :: 0 <= i < |LineSpans(line)| && OffsetOf(LineSpans(line), i) == p
              && LineSpans(line)[i] == Tagged(Keyword(KeywordClassOf(kw).value), line[p..p + |kw|])
  {
    var i := LineCompoundToken(line, kw, p);
    CompoundHasClass(kw);
    StyledCompound(Lex(line), i, kw);
    assert LineSpans(line) == Styled(Lex(line));
  }

  /** A compound keyword token with a class is drawn as a keyword of that class, at its offset. */
  lemma StyledCompound(toks: seq<Token>, i: nat, kw: string)
    requires i < |toks| && toks[i].tag == Compound(kw)
    requires KeywordClassOf(kw).Some? && Upper(kw) == kw
    ensures Styled(toks)[i] == Tagged(Keyword(KeywordClassOf(kw).value), toks[i].text)
    ensures OffsetOf(Styled(toks), i) == OffsetOf(toks, i)
  {
    StyledOffsets(toks, i);
  }

  /**
   * On a line that is not a comment, no span other than a string literal
   * starts inside a literal the regular expression finds.
   */
  lemma LineOutsideLiterals(line: string)
    requires !IsCommentLine(line)
    ensures forall i :: 0 <= i < |LineSpans(line)| && LineSpans(line)[i].tag != StringLiteral ==>
              !InString(StringRanges(line), OffsetOf(LineSpans(line), i))
  {
    LineLiterals(line);
    LineClassified(line);
    SpansOutside(LineSpans(line));
  }

  /** No non-empty span other than a string literal starts inside a string-literal span. */
  lemma SpansOutside(spans: seq<Span>)
    requires forall i :: 0 <= i < |spans| ==> spans[i].text != []
    ensures forall i :: 0 <= i < |spans| && spans[i].tag != StringLiteral ==>
              !InString(RangesOf(spans, StringLiteral, 0), OffsetOf(spans, i))
  {
    forall i | 0 <= i < |spans| && spans[i].tag != StringLiteral
      ensures !InString(RangesOf(spans, StringLiteral, 0), OffsetOf(spans, i))
    {
      OtherTagOutside(spans, StringLiteral, 0, i);
    }
  }

  // ---------------------------------------------------------------------------
  // Each word of a line is one span

  /**
   * No two neighbouring split pieces are both words: the split keeps a
   * whitespace run between any two words of a gap, and a cut stands between
   * two gaps.
   */
  predicate WordsApart(toks: seq<Token>)
    decreases |toks|
  {
    |toks| >= 2 ==>
      && (toks[0].tag.Piece? && toks[1].tag.Piece? ==> AllWhitespace(toks[0].text) || AllWhitespace(toks[1].text))
      && WordsApart(toks[1..])
  }

  lemma WordsApartCons(t: Token, rest: seq<Token>)
    requires WordsApart(rest)
    requires rest != [] && t.tag.Piece? && rest[0].tag.Piece? ==> AllWhitespace(t.text) || AllWhitespace(rest[0].text)
    ensures WordsApart([t] + rest)
  {
    ConsTail(t, rest);
    if rest != [] {
      assert ([t] + rest)[1] == rest[0];
    }
  }

  lemma {:induction false} WordsApartAppend(a: seq<Token>, b: seq<Token>)
    requires WordsApart(a) && WordsApart(b)
    requires b == [] || !b[0].tag.Piece?
    ensures WordsApart(a + b)
    decreases |a|
  {
    if a == [] {
      assert a + b == b;
    } else {
      WordsApartAppend(a[1..], b);
      if a[1..] == [] {
        assert a[1..] + b == b;
      } else {
        assert (a[1..] + b)[0] == a[1];
      }
      WordsApartCons(a[0], a[1..] + b);
      ConsAppend(a, b);
    }
  }

  /** The pieces of a split, laid from `o`, keep their words apart. */
  lemma {:induction false} PieceTokensApart(line: string, pieces: seq<string>, o: nat)
    requires o + |Concat(pieces)| <= |line|
    requires Alternating(pieces)
    ensures WordsApart(PieceTokens(line, pieces, o))
    decreases |pieces|
  {
    var o1 := o + |pieces[0]|;
    var head := PieceHead(line, pieces[0], o);
    PieceTokensCons(line, pieces, o);
    if |pieces| == 1 {
      assert pieces[1..] == [];
      assert head + PieceTokens(line, pieces[1..], o1) == head;
    } else {
      var rest1 := pieces[1..];
      var o2 := o1 + |rest1[0]|;
      PieceTokensCons(line, rest1, o1);
      assert rest1[0] == pieces[1] && rest1[1..] == pieces[2..];
      PieceTokensApart(line, pieces[2..], o2);
      ApartStep(head, PieceHead(line, pieces[1], o1), PieceTokens(line, pieces[2..], o2));
    }
  }

  /** The token, if any, that a piece `w` laid at `o` becomes. */
  function PieceHead(line: string, w: string, o: nat): (r: seq<Token>)
    requires o + |w| <= |line|
    ensures |r| <= 1 && (w != [] ==> r == [Tagged(Piece(WholeWord(line, o, o + |w|)), w)])
    ensures forall t | t in r :: t.text == w
  {
    if w == [] then [] else [Tagged(Piece(WholeWord(line, o, o + |w|)), w)]
  }

  /** Laying out pieces lays out the first, then the rest after it. */
  lemma PieceTokensCons(line: string, pieces: seq<string>, o: nat)
    requires pieces != [] && o + |Concat(pieces)| <= |line|
    ensures Concat(pieces) == pieces[0] + Concat(pieces[1..])
    ensures PieceTokens(line, pieces, o)
      == PieceHead(line, pieces[0], o) + PieceTokens(line, pieces[1..], o + |pieces[0]|)
  {
  }

  /** A token, then a whitespace run, then tokens kept apart: all kept apart. */
  lemma ApartStep(head: seq<Token>, run: seq<Token>, rest: seq<Token>)
    requires |head| <= 1 && |run| == 1 && AllWhitespace(run[0].text) && WordsApart(rest)
    ensures WordsApart(head + (run + rest))
  {
    assert run == [run[0]];
    WordsApartCons(run[0], rest);
    if head == [] {
      EmptyAppend(run + rest);
    } else {
      assert head == [head[0]];
      ConsTail(run[0], rest);
      WordsApartCons(head[0], run + rest);
    }
  }

  lemma GapTokensApart(line: string, a: nat, b: nat)
    requires a <= b <= |line|
    ensures WordsApart(GapTokens(line, a, b))
  {
    SplitKeepJoin(line[a..b]);
    SplitKeepShape(line[a..b]);
    PieceTokensApart(line, SplitKeep(line[a..b]), a);
  }

  lemma {:induction false} AssembleApart(line: string, kws: seq<string>, cuts: seq<Cut>, gap: nat)
    requires gap <= |line| && Laid(line, cuts, gap) && Found(line, kws, cuts)
    ensures WordsApart(Assemble(line, cuts, gap))
    decreases |cuts|
  {
    if cuts == [] {
      GapTokensApart(line, gap, |line|);
    } else {
      var c := cuts[0];
      var g := GapTokens(line, gap, c.range.start);
      var t := Tagged(c.role, line[c.range.start..c.range.end]);
      var rest := Assemble(line, cuts[1..], c.range.end);
      assert !t.tag.Piece?;
      AssembleApart(line, kws, cuts[1..], c.range.end);
      GapTokensApart(line, gap, c.range.start);
      WordsApartCons(t, rest);
      ConsTail(t, rest);
      WordsApartAppend(g, [t] + rest);
      AppendAssoc(g, [t], rest);
    }
  }

  /** The tokens of a line keep its words apart. */
  lemma LexApart(line: string)
    ensures WordsApart(Lex(line))
  {
    AssembleApart(line, CompoundKeywords(), LineCuts(line), 0);
  }

  /**
   * The first of the tokens placed from `o` is a piece when it overlaps
   * `[a, b)`, which no literal token and no keyword match overlaps.
   */
  lemma HeadOverlap(line: string, kws: seq<string>, toks: seq<Token>, o: nat, a: nat, b: nat)
    requires toks != [] && TokenAt(line, kws, toks[0], o) && a < b
    requires forall p :: a <= p < b ==> !InString(RangesOf(toks, Literal, o), p)
    requires forall kw, p: nat :: kw in kws && MatchesAt(line, kw, p) ==> p + |kw| <= a || b <= p
    ensures o < b && a < o + |toks[0].text| ==> toks[0].tag.Piece?
  {
    var t := toks[0];
    var e := o + |t.text|;
    var p := if a < o then o else a;
    var rs := RangesOf(toks, Literal, o);
    assert t.tag == Literal ==> rs != [] && rs[0] == Range(o, e);
    assert t.tag == Literal && o < b && a < e ==> rs[0].start <= p < rs[0].end && InString(rs, p);
    assert t.tag.Compound? ==> t.tag.keyword in kws && MatchesAt(line, t.tag.keyword, o) && |t.tag.keyword| == |t.text|;
  }

  /**
   * A word bounded by whitespace or the ends of the line, which no literal
   * token and no keyword match overlaps, is one whole-word piece among
   * tokens placed from `o` that reach the end of the line.
   */
  lemma {:induction false} WordToken(line: string, kws: seq<string>, toks: seq<Token>, o: nat, a: nat, b: nat)
    returns (i: nat)
    requires Placed(line, kws, toks, o) && WordsApart(toks) && o + |Text(toks)| == |line|
    requires o <= a < b <= |line| && NoWhitespace(line[a..b]) && WholeWord(line, a, b)
    requires forall p :: a <= p < b ==> !InString(RangesOf(toks, Literal, o), p)
    requires forall kw, p: nat :: kw in kws && MatchesAt(line, kw, p) ==> p + |kw| <= a || b <= p
    ensures i < |toks| && o + OffsetOf(toks, i) == a
    ensures toks[i] == Tagged(Piece(true), line[a..b])
    decreases |toks|
  {
    assert Text(toks) != [];
    var t := toks[0];
    var e := o + |t.text|;
    assert Text(toks) == t.text + Text(toks[1..]);
    RangesClearTail(toks, Literal, o, e, a, b);
    if e <= a {
      var j := WordToken(line, kws, toks[1..], e, a, b);
      assert toks[1..][j] == toks[j + 1];
      i := j + 1;
    } else {
      assert Placed(line, kws, toks[1..], e);
      if |toks| >= 2 {
        assert toks[1..][0] == toks[1];
      }
      WordHead(line, kws, toks, o, e, a, b);
      i := 0;
    }
  }

  /**
   * The token holding offset `a` of the word `[a, b)` is the whole word:
   * it is a word piece starting at `a`, and a token after it inside the
   * word would be a second word piece beside it.
   */
  lemma WordHead(line: string, kws: seq<string>, toks: seq<Token>, o: nat, e: nat, a: nat, b: nat)
    requires toks != [] && e == o + |toks[0].text| && o <= a < e && a < b <= |line|
    requires TokenAt(line, kws, toks[0], o)
    requires e < b ==> |toks| >= 2 && TokenAt(line, kws, toks[1], e)
    requires |toks| >= 2 && toks[0].tag.Piece? && toks[1].tag.Piece? ==>
               AllWhitespace(toks[0].text) || AllWhitespace(toks[1].text)
    requires NoWhitespace(line[a..b]) && WholeWord(line, a, b)
    requires forall p :: a <= p < b ==> !InString(RangesOf(toks, Literal, o), p)
    requires forall p :: a <= p < b ==> !InString(RangesOf(toks[1..], Literal, e), p)
    requires forall kw, p: nat :: kw in kws && MatchesAt(line, kw, p) ==> p + |kw| <= a || b <= p
    ensures o == a && toks[0] == Tagged(Piece(true), line[a..b])
  {
    HeadOverlap(line, kws, toks, o, a, b);
    WordPiece(line, toks[0], o, a, b);
    if e < b {
      assert toks[1..][0] == toks[1];
      HeadOverlap(line, kws, toks[1..], e, a, b);
      NextNotWord(line, toks[1], e, a, b);
    }
  }

  /** Offsets no tagged range holds, no range of the tail holds either. */
  lemma RangesClearTail<T>(ps: seq<Tagged<T>>, tag: T, o: nat, e: nat, a: nat, b: nat)
    requires ps != [] && e == o + |ps[0].text|
    requires forall p :: a <= p < b ==> !InString(RangesOf(ps, tag, o), p)
    ensures forall p :: a <= p < b ==> !InString(RangesOf(ps[1..], tag, e), p)
  {
    var head := if ps[0].tag == tag then [Range(o, e)] else [];
    var tail := RangesOf(ps[1..], tag, e);
    assert RangesOf(ps, tag, o) == head + tail;
    forall p | a <= p < b
      ensures !InString(tail, p)
    {
      InStringAppend(head, tail, p);
    }
  }

  /**
   * On a line that is not a comment, every word of the whitespace split
   * that stands clear of the literals and the compound keywords, bounded by
   * whitespace or the ends of the line, is one span at its place, holding
   * the word and classified by it: a number, a keyword of the first list
   * holding its upper-case form, or plain.
   */
  lemma LineWord(line: string, a: nat, b: nat)
    requires !IsCommentLine(line)
    requires a < b <= |line| && NoWhitespace(line[a..b]) && WholeWord(line, a, b)
    requires forall p :: a <= p < b ==> !InString(StringRanges(line), p)
    requires forall kw, p: nat :: kw in CompoundKeywords() && MatchesAt(line, kw, p) ==> p + |kw| <= a || b <= p
    ensures exists i :: 0 <= i < |LineSpans(line)| && OffsetOf(LineSpans(line), i) == a
              && LineSpans(line)[i] == Tagged(Classify(line[a..b]), line[a..b])
  {
    var i := LineWordToken(line, a, b);
    StyledWord(Lex(line), i, line[a..b]);
    assert LineSpans(line) == Styled(Lex(line));
  }

  /** A whole-word piece is drawn in its word's category, at its offset. */
  lemma StyledWord(toks: seq<Token>, i: nat, w: string)
    requires i < |toks| && toks[i] == Tagged(Piece(true), w)
    requires w != [] && NoWhitespace(w)
    ensures Styled(toks)[i] == Tagged(Classify(w), w)
    ensures OffsetOf(Styled(toks), i) == OffsetOf(toks, i)
  {
    StyledOffsets(toks, i);
    assert !IsWhitespace(w[0]);
  }

  /** The word `[a, b)` of `LineWord` is one whole-word token of the line. */
  lemma LineWordToken(line: string, a: nat, b: nat) returns (i: nat)
    requires a < b <= |line| && NoWhitespace(line[a..b]) && WholeWord(line, a, b)
    requires forall p :: a <= p < b ==> !InString(StringRanges(line), p)
    requires forall kw, p: nat :: kw in CompoundKeywords() && MatchesAt(line, kw, p) ==> p + |kw| <= a || b <= p
    ensures i < |Lex(line)| && OffsetOf(Lex(line), i) == a
    ensures Lex(line)[i] == Tagged(Piece(true), line[a..b])
  {
    LexPlaced(line);
    LexApart(line);
    LexText(line);
    LexLiterals(line);
    i := WordToken(line, CompoundKeywords(), Lex(line), 0, a, b);
  }

  /** A piece holding offset `a` of a whole word `[a, b)` starts at `a` and ends by `b`. */
  lemma WordPiece(line: string, t: Token, o: nat, a: nat, b: nat)
    requires Sits(line, t.text, o) && (AllWhitespace(t.text) || NoWhitespace(t.text))
    requires o <= a < o + |t.text| && a < b <= |line|
    requires NoWhitespace(line[a..b]) && WholeWord(line, a, b)
    ensures o == a && o + |t.text| <= b && !AllWhitespace(t.text)
  {
    var e := o + |t.text|;
    forall k | o <= k < e
      ensures line[k] == t.text[k - o]
    {
      assert line[k] == line[o..e][k - o];
    }
    assert line[a] == line[a..b][0];
    assert !IsWhitespace(t.text[a - o]);
  }

  /** A token standing inside the word `[a, b)` is not a whitespace run. */
  lemma NextNotWord(line: string, u: Token, e: nat, a: nat, b: nat)
    requires Sits(line, u.text, e) && a <= b <= |line| && NoWhitespace(line[a..b])
    ensures a <= e < b ==> !AllWhitespace(u.text)
  {
    assert line[e..e + |u.text|][0] == u.text[0];
    if a <= e < b {
      assert line[e] == line[a..b][e - a];
    }
  }
}
