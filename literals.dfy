/**
 * String literals as the highlighter finds them: the global regular
 * expression `(["'])(.*?)\1`, run by repeated `exec` calls from `lastIndex`,
 * collects the half-open ranges of quote-delimited text on one line.
 */
module StringLiterals {
  import opened Wrappers
  import opened Lexis
  import opened Seqs

  /** A half-open range `[start, end)` of a line. */
  datatype Range = Range(start: nat, end: nat)

  /** No character in `[j, k)` is the quote `q` or a line terminator. */
  predicate Unbroken(line: string, q: char, j: nat, k: nat)
    requires j <= k <= |line|
  {
    forall m :: j <= m < k ==> line[m] != q && !IsLineTerminator(line[m])
  }

  /**
   * `r` is a literal: an opening quote, a body that holds neither that quote
   * nor a line terminator, and the same quote closing it.
   */
  predicate IsLiteral(line: string, r: Range) {
    && r.start + 2 <= r.end <= |line|
    && IsQuote(line[r.start])
    && line[r.end - 1] == line[r.start]
    && Unbroken(line, line[r.start], r.start + 1, r.end - 1)
  }

  /**
   * The non-greedy `(.*?)\1` after an opening quote `q`: the first `q` at
   * or after `j`, unless a line terminator or the end of the line comes
   * first.
   */
  function ClosingQuote(line: string, q: char, j: nat): (r: Option<nat>)
    requires j <= |line|
    requires !IsLineTerminator(q)
    ensures r.Some? ==> j <= r.value < |line| && line[r.value] == q && Unbroken(line, q, j, r.value)
    ensures r.None? ==> forall k :: j <= k < |line| && line[k] == q ==> !Unbroken(line, q, j, k)
    decreases |line| - j
  {
    if j == |line| then None
    else if line[j] == q then Some(j)
    else if IsLineTerminator(line[j]) then None
    else ClosingQuote(line, q, j + 1)
  }

  /** The match of `(["'])(.*?)\1` that begins exactly at `i`, if there is one. */
  function MatchAt(line: string, i: nat): (r: Option<Range>)
    requires i < |line|
    ensures r.Some? ==> r.value.start == i && IsLiteral(line, r.value)
    ensures r.None? ==> forall e :: !IsLiteral(line, Range(i, e))
  {
    if IsQuote(line[i]) then
      match ClosingQuote(line, line[i], i + 1)
      case Some(k) => Some(Range(i, k + 1))
      case None => None
    else None
  }

  /** No literal begins at any index of `[a, b)`. */
  predicate NoLiteralStarts(line: string, a: nat, b: nat)
    requires b <= |line|
  {
    forall p :: a <= p < b ==> MatchAt(line, p).None?
  }

  /** One `exec` from `lastIndex == from`: the leftmost match at or after `from`. */
  function NextMatch(line: string, from: nat): (r: Option<Range>)
    requires from <= |line|
    ensures r.Some? ==> from <= r.value.start && IsLiteral(line, r.value)
    ensures r.Some? ==> MatchAt(line, r.value.start) == r && NoLiteralStarts(line, from, r.value.start)
    ensures r.None? ==> NoLiteralStarts(line, from, |line|)
    decreases |line| - from
  {
    if from == |line| then None
    else match MatchAt(line, from)
      case Some(m) => Some(m)
      case None => NextMatch(line, from + 1)
  }

  /** The closing quote is the first `q` after `j`, on a stretch without line terminators. */
  lemma {:induction false} ClosingQuoteAt(line: string, q: char, j: nat, k: nat)
    requires j <= k < |line| && !IsLineTerminator(q)
    requires line[k] == q && Unbroken(line, q, j, k)
    ensures ClosingQuote(line, q, j) == Some(k)
    decreases k - j
  {
    if j < k {
      ClosingQuoteAt(line, q, j + 1, k);
    }
  }

  /** An `exec` from `from` skips a stretch where no literal begins. */
  lemma {:induction false} NextMatchSkips(line: string, from: nat, to: nat)
    requires from <= to <= |line| && NoLiteralStarts(line, from, to)
    ensures NextMatch(line, from) == NextMatch(line, to)
    decreases |line| - from
  {
    if from < to {
      NextMatchSkips(line, from + 1, to);
    }
  }

  /** The ranges the `exec` loop pushes when started with `lastIndex == from`. */
  function StringRangesFrom(line: string, from: nat): seq<Range>
    requires from <= |line|
    decreases |line| - from
  {
    match NextMatch(line, from)
    case None => []
    case Some(r) => [r] + StringRangesFrom(line, r.end)
  }

  function StringRanges(line: string): seq<Range> {
    StringRangesFrom(line, 0)
  }

  /**
   * The collecting loop: `exec` from the last match's end until it fails,
   * pushing each match's range.
   */
  method ScanStrings(line: string) returns (positions: seq<Range>)
    ensures positions == StringRanges(line)
  {
    positions := [];
    var lastIndex := 0;
    while true
      invariant lastIndex <= |line|
      invariant positions + StringRangesFrom(line, lastIndex) == StringRanges(line)
      decreases |line| - lastIndex
    {
      var m := NextMatch(line, lastIndex);
      if m.None? {
        break;
      }
      positions := positions + [m.value];
      lastIndex := m.value.end;
    }
  }

  /** Literals, each at or after `from`, in increasing and non-overlapping order. */
  predicate Ordered(line: string, rs: seq<Range>, from: nat) {
    && (forall i :: 0 <= i < |rs| ==> IsLiteral(line, rs[i]) && from <= rs[i].start)
    && (forall i, j :: 0 <= i < j < |rs| ==> rs[i].end <= rs[j].start)
  }

  /** No literal begins in a gap: before the first range, between two ranges, or after the last. */
  predicate Exhaustive(line: string, rs: seq<Range>, from: nat)
    requires from <= |line|
    requires Ordered(line, rs, from)
  {
    && (rs == [] ==> NoLiteralStarts(line, from, |line|))
    && (rs != [] ==> NoLiteralStarts(line, from, rs[0].start))
    && (forall i :: 0 < i < |rs| ==> NoLiteralStarts(line, rs[i - 1].end, rs[i].start))
    && (rs != [] ==> NoLiteralStarts(line, rs[|rs| - 1].end, |line|))
  }

  /**
   * The ranges are literals, strictly increasing and non-overlapping, and
   * no literal begins in a gap before, between or after them.
   */
  lemma {:induction false} StringRangesFromSound(line: string, from: nat)
    requires from <= |line|
    ensures Ordered(line, StringRangesFrom(line, from), from)
    ensures Exhaustive(line, StringRangesFrom(line, from), from)
    decreases |line| - from
  {
    match NextMatch(line, from)
    case None =>
    case Some(r) =>
      var rest := StringRangesFrom(line, r.end);
      StringRangesFromSound(line, r.end);
      assert StringRangesFrom(line, from) == [r] + rest;
      OrderedCons(line, r, rest, from);
      ExhaustiveCons(line, r, rest, from);
  }

  /** The ranges after the first are ordered from the first's end. */
  lemma OrderedTail(line: string, rs: seq<Range>, from: nat)
    requires Ordered(line, rs, from) && rs != []
    ensures IsLiteral(line, rs[0]) && from <= rs[0].start
    ensures Ordered(line, rs[1..], rs[0].end)
  {
    forall i | 0 <= i < |rs| - 1
      ensures IsLiteral(line, rs[1..][i]) && rs[0].end <= rs[1..][i].start
    {
      assert rs[1..][i] == rs[i + 1];
    }
  }

  lemma OrderedCons(line: string, r: Range, rest: seq<Range>, from: nat)
    requires IsLiteral(line, r) && from <= r.start
    requires Ordered(line, rest, r.end)
    ensures Ordered(line, [r] + rest, from)
  {
    var rs := [r] + rest;
    assert forall i :: 0 < i < |rs| ==> rs[i] == rest[i - 1];
  }

  /** No literal begins before `r`, nor in the gaps of the literals after it. */
  lemma ExhaustiveCons(line: string, r: Range, rest: seq<Range>, from: nat)
    requires from <= r.start && IsLiteral(line, r)
    requires NoLiteralStarts(line, from, r.start)
    requires Ordered(line, rest, r.end) && Exhaustive(line, rest, r.end)
    ensures Ordered(line, [r] + rest, from)
    ensures Exhaustive(line, [r] + rest, from)
  {
    OrderedCons(line, r, rest, from);
    var rs := [r] + rest;
    assert forall i :: 0 < i < |rs| ==> rs[i] == rest[i - 1];
    if rest != [] {
      assert rs[|rs| - 1] == rest[|rest| - 1];
    }
  }

  lemma StringRangesSound(line: string)
    ensures Ordered(line, StringRanges(line), 0)
    ensures Exhaustive(line, StringRanges(line), 0)
  {
    StringRangesFromSound(line, 0);
  }

  /** `isInString`: some range holds the position. */
  function InString(rs: seq<Range>, p: int): (b: bool)
    ensures b <==> exists i :: 0 <= i < |rs| && rs[i].start <= p < rs[i].end
  {
    if rs == [] then false
    else if rs[0].start <= p < rs[0].end then true
    else
      var b := InString(rs[1..], p);
      assert forall i :: 0 < i < |rs| ==> rs[i] == rs[1..][i - 1];
      b
  }

  lemma InStringAppend(a: seq<Range>, b: seq<Range>, p: int)
    ensures InString(a + b, p) <==> InString(a, p) || InString(b, p)
  {
    if InString(a + b, p) {
      var i :| 0 <= i < |a + b| && (a + b)[i].start <= p < (a + b)[i].end;
      if i >= |a| {
        assert b[i - |a|] == (a + b)[i];
      }
    }
    if InString(b, p) {
      var i :| 0 <= i < |b| && b[i].start <= p < b[i].end;
      assert (a + b)[|a| + i] == b[i];
    }
    if InString(a, p) {
      var i :| 0 <= i < |a| && a[i].start <= p < a[i].end;
      assert (a + b)[i] == a[i];
    }
  }
}
