# SQL query editor highlighter, modelled in Dafny

The query editor shows SQL in a plain text area. A highlighted copy is drawn
underneath it and follows the text area's scrolling. On every edit,
`highlightSyntax` rebuilds that copy:

- It splits the buffer into lines.
- A line whose trimmed text starts with `--` becomes one comment.
- In any other line, the string literals found by the regular expression
  `(["'])(.*?)\1` are set apart.
- The compound keywords of the catalogue (the entries holding a space, such
  as `GROUP BY`) are matched as whole words, ignoring case.
- The rest is split on runs of whitespace. Each word is a number if it
  matches `^\d+(\.\d+)?$`. Otherwise it takes the class of the first keyword
  list, in a fixed priority order, that holds its upper-case form.
- The lines are numbered from 1.

`handleScroll` copies the text area's two scroll offsets onto the overlay.

The model replaces the HTML the editor builds with spans, pairs of a
category and the text drawn in it:

- `Catalogue` holds the five keyword lists, the class lookup and the
  compound keywords.
- `Lexis` holds the text primitives: upper-casing, trimming, the number
  test, `indexOf`, the whitespace split that keeps separators, and the line
  split.
- `StringLiterals` holds the literal ranges and the `exec` loop that
  collects them, as a method.
- `Highlight` holds the per-line partition and its styling, the whole
  buffer, and what the result means:
  - the text is preserved;
  - literals sit exactly where the regular expression finds them;
  - keywords and numbers are classified as the lists and the pattern say;
  - comments occur exactly on comment lines;
  - lines are numbered in order.
- `AsWritten` holds, as the code writes them, the string splice, the
  compound keyword passes and the word pass's "in a string" test:
  - the splice reassigns `processedLine` literal by literal;
  - each compound keyword's `replace` runs over the `processedLine` that
    the passes before it left, and tests each match with `indexOf` on that
    same marked-up line;
  - the word pass tests a word with `indexOf` on the original line.

  It records where they go wrong (see Findings), beside their corrected
  forms.
- `ScrollSync` holds the scroll listener, as a class over two panes.

The model follows the code where a reader might expect otherwise:

- Comments: the code recognises only a line whose trimmed text starts with
  `--`. A `--` later in the line starts nothing.
- Unterminated quotes: an unmatched quote is simply skipped, because the
  regular expression finds no match there. It does not run to the end of
  the line.
- Words are split on whitespace only, so punctuation stays in the word:
  `10;` is not a number and `FROM;` is not a keyword. Both are plain.
- A compound keyword matches only with exactly one space between its two
  words, because its regular expression is the keyword text itself.
  `group  by`, with two spaces, is not matched.

## Model

| member | source | states |
|---|---|---|
| Catalogue.KeywordClassOf | src/components/query-editor.tsx:214-230 | the class of an upper-cased word is the first list, in priority order, holding it: it is in that list and in no list before it, and there is none exactly when no list holds the word |
| Catalogue.AllKeywordsAreCatalogue | src/components/query-editor.tsx:125-130 | the five lists spread into one hold exactly the words of some list |
| Catalogue.KeepSpaced | src/components/query-editor.tsx:131 | the filter keeps exactly the entries holding a space, and no more entries than it was given |
| Catalogue.CompoundKeywordsExact | src/components/query-editor.tsx:125-131 | a word is a compound keyword exactly when some list holds it and it holds a space |
| Catalogue.CatalogueCanonical | src/components/query-editor.tsx:12-118 | every catalogue entry is non-empty, holds only upper-case letters and spaces, and starts and ends with a letter, so it equals its own upper-case form |
| Catalogue.CompoundSplit | src/components/query-editor.tsx:12-118 | every compound keyword is one of the listed pairs of words joined by one space |
| Catalogue.CompoundPair | src/components/query-editor.tsx:125-131 | any two compound keywords are each two words of capitals joined by one space; they are the same keyword when their first words agree, and the second word of one is never the first word of the other |
| Catalogue.CompoundKeywordsStart | src/components/query-editor.tsx:125-131 | the compound keywords begin with `GROUP BY` and then `ORDER BY`, so their passes are the first two to run |
| Catalogue.CompoundHasClass | src/components/query-editor.tsx:173-191 | every compound keyword has a class, so a match outside a string is always wrapped |
| Lexis.UpperChar | src/components/query-editor.tsx:214 | upper-casing maps `a`-`z` to `A`-`Z`, leaves every other character alone, and keeps word characters, digits, quotes and whitespace what they were |
| Lexis.Trim | src/components/query-editor.tsx:136 | the trimmed text is a stretch of the string with only whitespace before and after it, and when it is not empty it neither starts nor ends with whitespace |
| Lexis.TrimEmptyIff | src/components/query-editor.tsx:203 | a word trims to nothing exactly when it is all whitespace |
| Lexis.TrimStartsWithDashes | src/components/query-editor.tsx:136 | the trimmed line starts with `--` exactly when `--` follows nothing but whitespace |
| Lexis.IsNumber | src/components/query-editor.tsx:209 | a number is non-empty and starts and ends with a digit |
| Lexis.NumberIgnoresCase | src/components/query-editor.tsx:209-214 | the number pattern holds for a word exactly when it holds for its upper-case form |
| Lexis.NumberCharacters | src/components/query-editor.tsx:209 | every character of a number is a digit or the decimal point |
| Lexis.IndexFrom | src/components/query-editor.tsx:206 | `indexOf` gives -1 or an occurrence of the word, and no occurrence lies before it |
| Lexis.SplitKeep | src/components/query-editor.tsx:198 | the split that keeps separators gives at least one piece, and exactly one when the line holds no whitespace |
| Lexis.SplitKeepJoin | src/components/query-editor.tsx:198 | the pieces of the split that keeps separators join back to the line |
| Lexis.SplitKeepShape | src/components/query-editor.tsx:198 | words without whitespace alternate with non-empty whitespace runs, with a word at each end, and only the two end words may be empty |
| Lexis.AlternatingPieces | src/components/query-editor.tsx:198 | every piece is all whitespace or holds none |
| Lexis.SplitLines | src/components/query-editor.tsx:122 | splitting on `\n` gives at least one line, and no line holds `\n` |
| Lexis.SplitLinesJoin | src/components/query-editor.tsx:122 | splitting on `\n` gives one more line than there are newlines, and joining with `\n` gives the text back |
| StringLiterals.ClosingQuote | src/components/query-editor.tsx:142 | the lazy body stops at the first matching quote; there is none when a line terminator or the line's end comes first |
| StringLiterals.ClosingQuoteAt | src/components/query-editor.tsx:142 | when the same quote stands at `k` and neither that quote nor a line terminator stands between the opening and `k`, the lazy body closes at `k` |
| StringLiterals.MatchAt | src/components/query-editor.tsx:142 | a match at `i` is a literal starting at `i`, and when there is none, no literal starts at `i` |
| StringLiterals.NextMatch | src/components/query-editor.tsx:144 | one `exec` from `lastIndex` gives the leftmost literal at or after it, and none starts before it |
| StringLiterals.NextMatchSkips | src/components/query-editor.tsx:144 | an `exec` from `lastIndex` gives the same match as one started past a stretch where no literal begins |
| StringLiterals.ScanStrings | src/components/query-editor.tsx:141-149 | the `exec` loop collects exactly the ranges of the literal-scan function |
| StringLiterals.StringRangesFromSound | src/components/query-editor.tsx:144-149 | the collected ranges are literals in increasing, non-overlapping order, and no literal starts in any gap between them |
| StringLiterals.StringRangesSound | src/components/query-editor.tsx:141-149 | the same, for the whole line |
| StringLiterals.InString | src/components/query-editor.tsx:152-156 | a position is in a string exactly when some collected range holds it |
| Highlight.Classify | src/components/query-editor.tsx:208-232 | a word is a number exactly when it matches the pattern; a keyword's upper-case form is in that class's list and in no list before it; it is plain exactly when it is neither |
| Highlight.ClassifyIgnoresCase | src/components/query-editor.tsx:214 | two words with the same upper-case form are classified alike |
| Highlight.FirstMatching | src/components/query-editor.tsx:169-171 | the keyword found at a position matches there as a whole word, ignoring case, and is the first in catalogue order that does; none is found only when none matches |
| Highlight.DoubleSpaceNoMatch | src/components/query-editor.tsx:170 | `GROUP BY` matches `group by` but not `group  by`, with two spaces |
| Highlight.InnerMatch | src/components/query-editor.tsx:169-171 | when a second compound keyword match starts inside a first one, it starts at the first one's second word, and that word is the second keyword's first word |
| Highlight.CompoundsApart | src/components/query-editor.tsx:169-171 | two matches of compound keywords of the catalogue that overlap start at the same place and are the same keyword, so the keyword-by-keyword passes of the code and the position-by-position model agree |
| Highlight.Cuts | src/components/query-editor.tsx:159-195 | the cuts lie in order within the line; each is a literal or a whole-word match of a compound keyword; the literal cuts are exactly the collected string ranges; every compound keyword match lies in some cut |
| Highlight.LineCuts | src/components/query-editor.tsx:159-195 | the same for a line, with the catalogue's compound keywords and the line's string ranges |
| Highlight.Style | src/components/query-editor.tsx:173-232 | a token is a string exactly when it is a literal; a compound keyword with a class is drawn as a keyword of that class, and a keyword span from a compound keyword has its keyword's class; a whole word is classified; blanks and pieces of words are plain; nothing is a comment |
| Highlight.PunctuatedWordIsPlain | src/components/query-editor.tsx:198-232 | a word whose last character is not a letter, digit or `_`, such as `10;` or `FROM;`, is plain |
| Highlight.LineSpans | src/components/query-editor.tsx:134-236 | the spans of a line, read in order, give back the line |
| Highlight.LexPlaced | src/components/query-editor.tsx:159-198 | each token sits at its offset in the line and is what its role says: a literal, a compound keyword match, or a split piece that is a whitespace run or a word, marked whole exactly when whitespace or the line's ends bound it |
| Highlight.LexLiterals | src/components/query-editor.tsx:141-166 | the literal tokens sit exactly at the collected string ranges |
| Highlight.LineLiterals | src/components/query-editor.tsx:159-166 | the string spans of a line that is not a comment sit exactly at the collected string ranges |
| Highlight.LexApart | src/components/query-editor.tsx:198 | no two split pieces stand side by side unless one of them is a whitespace run, as the maximal words of `split(/(\s+)/)` do |
| Highlight.WordToken | src/components/query-editor.tsx:198-206 | a whole word bounded by whitespace or the line's ends, clear of literal tokens and compound matches, is exactly one whole-word piece at its offset |
| Highlight.LineWord | src/components/query-editor.tsx:198-232 | on a line that is not a comment, every word bounded by whitespace or the line's ends and clear of the literals and the compound keyword matches is one span at its offset, holding the whole word and classified by it |
| Highlight.LineClassified | src/components/query-editor.tsx:201-233 | every span is non-empty; a keyword span's upper-case text has that class; a number span's text is a number; a line that is not a comment has no comment span |
| Highlight.LineWords | src/components/query-editor.tsx:198-233 | each split piece keeps its place: a whitespace run is plain, a whole word is classified, and a piece that is only part of a word is plain |
| Highlight.LinePiecesOutsideLiterals | src/components/query-editor.tsx:205-206 | no split piece starts inside a string range |
| Highlight.LineCompounds | src/components/query-editor.tsx:169-191 | on a line that is not a comment, every whole-word match of a compound keyword that starts outside the literals is one keyword span of that keyword's class, at the match, holding the matched text |
| Highlight.LineOutsideLiterals | src/components/query-editor.tsx:172 | on a line that is not a comment, no span other than a string span starts inside a literal |
| Highlight.LineComment | src/components/query-editor.tsx:135-138 | a line is a comment exactly when `--` follows only whitespace; it is then one comment span holding the whole line; a line has a comment span exactly when it is a comment line |
| Highlight.HighlightSyntax | src/components/query-editor.tsx:120-249 | there is one numbered line per line of the buffer (one more than its newlines), numbered 1, 2, … in order; line i holds exactly the spans `LineSpans` draws for the i-th line, so the per-line lemmas (`LineComment`, `LineLiterals`, `LineCompounds`, `LineWords`, `LineWord`, `LineClassified`) describe every line of the output; their texts joined with `\n` give the buffer back |
| AsWritten.SpliceAll | src/components/query-editor.tsx:159-166 | each splice adds the two tags' length, so the result is that much longer per literal |
| AsWritten.SpliceStrings | src/components/query-editor.tsx:159-166 | the `forEach` that reassigns `processedLine` computes the left-to-right splice |
| AsWritten.SpliceOneLiteral | src/components/query-editor.tsx:159-166 | with at most one literal on the line, the splice wraps it as intended |
| AsWritten.TwoLiterals | src/components/query-editor.tsx:142-149 | the literals of `'a' 'b'` are `[0,3)` and `[4,7)` |
| AsWritten.SpliceStaleOffsets | src/components/query-editor.tsx:159-166 | for `'a' 'b'` the splice differs from the intended wrapping |
| AsWritten.SpliceRightToLeft | src/components/query-editor.tsx:159-166 | splicing from the last literal to the first adds the two tags' length per literal |
| AsWritten.SpliceRightToLeftWraps | src/components/query-editor.tsx:159-166 | splicing from the last literal to the first wraps every literal, leaving the text around them unchanged |
| AsWritten.LineSpliceWraps | src/components/query-editor.tsx:159-166 | the same for the literals of any line |
| AsWritten.OneLeadingLiteral | src/components/query-editor.tsx:142-149 | the only literal of `'select' select` is `[0,8)` |
| AsWritten.OneTrailingLiteral | src/components/query-editor.tsx:142-149 | the only literal of `select 'a select b'` is `[7,19)` |
| AsWritten.SkippedAsWritten | src/components/query-editor.tsx:206 | the word pass skips a word exactly when the first occurrence of its text in the line starts inside a literal |
| AsWritten.IndexOfSkipsOutside | src/components/query-editor.tsx:206 | in `'select' select` the whole word at offset 9 is outside every literal, yet the test skips it |
| AsWritten.IndexOfKeepsInside | src/components/query-editor.tsx:206 | in `select 'a select b'` the word at offset 10 is inside a literal, yet the test does not skip it |
| AsWritten.CompoundSkippedAsWritten | src/components/query-editor.tsx:172 | a compound keyword pass skips a match exactly when the first occurrence of its text in `processedLine`, as it stands before that pass with the literal markup and the markup of earlier passes, starts at an offset that a literal of the original line holds |
| AsWritten.ReplaceCopies | src/components/query-editor.tsx:170-171 | a keyword's `replace` copies every stretch of the processed line where the keyword does not match |
| AsWritten.ReplaceStep | src/components/query-editor.tsx:170-171 | where the keyword does not match, the `replace` copies one character and goes on |
| AsWritten.ReplaceAtMatch | src/components/query-editor.tsx:171-193 | at a match, the `replace` moves past the whole match; a skipped match is copied as it stands and one not skipped is wrapped in its keyword's class markup |
| AsWritten.PassWrapsHead | src/components/query-editor.tsx:171-193 | a pass whose keyword matches only at the start, unskipped, wraps that match and copies the rest |
| AsWritten.CompoundPassesFirstTwo | src/components/query-editor.tsx:169-195 | the `forEach` runs the first keyword's pass, then the second's on its result, then the rest |
| AsWritten.CompoundsAreQuery | src/components/query-editor.tsx:173-175 | `GROUP BY` and `ORDER BY` take the query keyword markup |
| AsWritten.OrderByLiteral | src/components/query-editor.tsx:142-149 | the only literal of `group by order by '` + 34 `x` + `'` is `[18,54)` |
| AsWritten.OrderBySplice | src/components/query-editor.tsx:159-166 | splicing that literal wraps the last 36 characters of the line |
| AsWritten.GroupByPass | src/components/query-editor.tsx:169-193 | GROUP BY's pass over the spliced line wraps `group by` at offset 0 and copies the rest |
| AsWritten.OrderByIndexOf | src/components/query-editor.tsx:172 | after that pass, `order by` first occurs at offset 53, where ORDER BY matches |
| AsWritten.OrderByOutside | src/components/query-editor.tsx:170-172 | in the original line, ORDER BY matches at offset 9, outside the only literal |
| AsWritten.OrderByFirstPass | src/components/query-editor.tsx:169-193 | the first pass turns the spliced line into the line with `group by` wrapped |
| AsWritten.OrderBySecondPass | src/components/query-editor.tsx:171-193 | ORDER BY's pass over that line skips its match at offset 53 and copies it unwrapped |
| AsWritten.OrderByPassesRun | src/components/query-editor.tsx:169-195 | on that line the `forEach` runs GROUP BY's pass, then ORDER BY's, then the rest |
| AsWritten.CompoundOutsideLiteralSkippedAsWritten | src/components/query-editor.tsx:169-195 | in `group by order by '` + 34 `x` + `'` the match of ORDER BY at offset 9 lies outside every literal, yet after GROUP BY's pass its text first occurs at 53, inside `[18,54)`, so ORDER BY's pass leaves it unwrapped |
| AsWritten.GroupByLiteral | src/components/query-editor.tsx:142-149 | the only literal of `'group by'` is `[0,10)` |
| AsWritten.GroupByIndexOf | src/components/query-editor.tsx:172 | in `'group by'` with its literal marked up, `group by` first occurs one character after the opening tag |
| AsWritten.CompoundInsideLiteralAsWritten | src/components/query-editor.tsx:172 | in `'group by'` the match of `GROUP BY` at offset 1 lies inside the literal, yet `indexOf` on the line as GROUP BY's pass, the first, finds it gives 28, outside every literal, so the match is not skipped |
| ScrollSync.ScrollMirror.constructor | src/components/query-editor.tsx:267-270 | the listener is set up only with both elements present, and keeps them |
| ScrollSync.ScrollMirror.HandleScroll | src/components/query-editor.tsx:272-275 | the overlay takes the text area's vertical and horizontal offsets; the text area keeps its own; the two are then in sync, and a mirror already in sync is left unchanged |

## Left out

- The React component is not modelled: its state, the change handler that calls `highlightSyntax` and assigns `innerHTML`, the execute button, and the registration and removal of the scroll listener. None of it holds logic beyond calling the modelled operations.
- The HTML strings are not modelled. Each span's category stands for the CSS classes of its wrapper, and the numbered line stands for the line's `div` with its number label. The model keeps the text and the category; the tags themselves appear only in `AsWritten`.
- The compound-keyword pass is modelled by its evident intent (`Highlight.LineCompounds`). As written, each keyword's `replace` and its "in a string" test at line 172 are modelled in `AsWritten` (`Pass`, `CompoundPasses`, `CompoundSkippedAsWritten`), and the findings below exhibit where the test goes wrong in both directions. The as-written passes are proved about only through the lemmas listed above and the two exhibits; they are not carried through the word pass that follows them.
- The word pass is not re-run over the markup inserted for literals and compound keywords. In the code those tags are split into words too (`<span`, `class="text-chart-1">'a'</span>`), which the model leaves out because it keeps categories rather than HTML text.
- The model tries the compound keywords position by position, in catalogue order. The code tries them keyword by keyword over the whole line. The results agree because no two compound keywords of the catalogue can overlap in a match.
- The per-line model (`Highlight.LineSpans`) is the corrected behaviour. The string splice and the two `indexOf` tests are modelled as written only in `AsWritten`, where the findings are recorded.
- UpperChar: upper-cases ASCII letters only. JavaScript's `toUpperCase` also maps other letters, such as `ß` to `SS`, which changes a word's length. The catalogue is ASCII, but a non-ASCII word could still upper-case into a keyword in the code, and the model does not capture that.
- Strings are sequences of characters, not UTF-16 code units. Offsets differ from JavaScript's for characters outside the Basic Multilingual Plane.
- HandleScroll: offsets are unbounded reals. The browser's clamping of scroll offsets to the scrollable range, and its rounding, are not modelled.
- The guard that skips setting up the listener when either element is missing is modelled by the constructor's two `Pane` parameters: their type is non-null, so a listener exists only when both elements do.

## Findings

| source | as written | input that shows it | evidently intended | confidence | as-written member | corrected member |
|---|---|---|---|---|---|---|
| src/components/query-editor.tsx:160-166 | each literal is spliced into `processedLine` at its offsets in the original line, although every earlier splice has already shifted the text | `'a' 'b'`: the second literal lands inside the first literal's markup | every literal wrapped in place, the text around it unchanged | not executed | AsWritten.SpliceStaleOffsets | AsWritten.SpliceRightToLeftWraps |
| src/components/query-editor.tsx:172 | a compound keyword match is skipped when `processedLine.indexOf(match)`, an offset into the line with its literals already marked up, falls inside a range of the original line | `'group by'`: the match at offset 1 lies inside the literal, but `indexOf` gives 28, past the literal, so the text inside the string is drawn as a keyword | a match skipped exactly when it lies inside a literal | not executed | AsWritten.CompoundInsideLiteralAsWritten | Highlight.LineCompounds |
| src/components/query-editor.tsx:169-172 | the same test, once an earlier pass has wrapped a keyword, searches a line that also holds that keyword's markup | `group by order by '` + 34 `x` + `'`: ORDER BY at offset 9 lies outside the literal `[18,54)`, but after GROUP BY is wrapped `indexOf` gives 53, inside it, so ORDER BY is left unwrapped | a match outside every literal always wrapped | not executed | AsWritten.CompoundOutsideLiteralSkippedAsWritten | Highlight.LineCompounds |
| src/components/query-editor.tsx:206 | a word is skipped when the first occurrence of its text in the line is inside a literal, wherever the word itself stands | `'select' select`: the keyword at offset 9 goes unhighlighted. `select 'a select b'`: the word at offset 10, inside the string, is highlighted as a keyword | a word skipped exactly when it lies inside a literal | not executed | AsWritten.IndexOfSkipsOutside | Highlight.LinePiecesOutsideLiterals |
