/**
 * The static keyword catalogue: five upper-case keyword lists, checked in a
 * fixed priority order, and the compound keywords (those with a space)
 * drawn from all five.
 */
module Catalogue {
  import opened Wrappers
  import opened Lexis

  /** The five keyword lists, in the order the highlighter consults them. */
  datatype KeywordClass = Query | Modification | Definition | OperatorFunction | Transaction

  function Rank(k: KeywordClass): nat {
    match k
    case Query => 0
    case Modification => 1
    case Definition => 2
    case OperatorFunction => 3
    case Transaction => 4
  }

  const QueryKeywords: seq<string> := [
    "SELECT", "FROM", "WHERE", "HAVING", "GROUP BY", "ORDER BY", "LIMIT", "OFFSET",
    "JOIN", "INNER JOIN", "LEFT JOIN", "RIGHT JOIN", "FULL JOIN", "CROSS JOIN",
    "ON", "AS", "WITH", "UNION", "ALL", "DISTINCT", "CASE", "WHEN", "THEN", "ELSE",
    "END", "BETWEEN", "IN", "EXISTS", "ANY", "SOME", "ALL"
  ]

  const ModificationKeywords: seq<string> := [
    "INSERT", "UPDATE", "DELETE", "INTO", "VALUES", "SET", "MERGE", "RETURNING", "DEFAULT"
  ]

  const DefinitionKeywords: seq<string> := [
    "CREATE", "ALTER", "DROP", "TABLE", "VIEW", "INDEX", "SEQUENCE", "TRIGGER",
    "PROCEDURE", "FUNCTION", "DATABASE", "SCHEMA", "COLUMN", "CONSTRAINT",
    "PRIMARY KEY", "FOREIGN KEY", "REFERENCES", "UNIQUE", "CHECK", "NOT NULL"
  ]

  const OperatorsAndFunctions: seq<string> := [
    "AND", "OR", "NOT", "IS", "NULL", "LIKE", "ILIKE", "SIMILAR TO", "COUNT", "SUM",
    "AVG", "MIN", "MAX", "COALESCE", "NULLIF", "EXTRACT", "NOW", "CAST", "TO"
  ]

  const TransactionKeywords: seq<string> := [
    "BEGIN", "COMMIT", "ROLLBACK", "TRANSACTION", "SAVEPOINT", "SET TRANSACTION",
    "ISOLATION LEVEL"
  ]

  function ListOf(k: KeywordClass): seq<string> {
    match k
    case Query => QueryKeywords
    case Modification => ModificationKeywords
    case Definition => DefinitionKeywords
    case OperatorFunction => OperatorsAndFunctions
    case Transaction => TransactionKeywords
  }

  predicate InCatalogue(word: string) {
    exists k :: word in ListOf(k)
  }

  /**
   * The class of an upper-cased word: the first list, in priority order,
   * that holds it, or None when no list does.
   */
  function KeywordClassOf(upper: string): (r: Option<KeywordClass>)
    ensures r.Some? ==> upper in ListOf(r.value)
    ensures r.Some? ==> forall k :: Rank(k) < Rank(r.value) ==> upper !in ListOf(k)
    ensures r.None? <==> !InCatalogue(upper)
  {
    if upper in QueryKeywords then Some(Query)
    else if upper in ModificationKeywords then Some(Modification)
    else if upper in DefinitionKeywords then Some(Definition)
    else if upper in OperatorsAndFunctions then Some(OperatorFunction)
    else if upper in TransactionKeywords then Some(Transaction)
    else (assert forall k :: upper !in ListOf(k); None)
  }

  /** The five lists spread into one, in priority order. */
  function AllKeywords(): seq<string> {
    QueryKeywords + ModificationKeywords + DefinitionKeywords
    + OperatorsAndFunctions + TransactionKeywords
  }

  lemma AllKeywordsAreCatalogue(word: string)
    ensures word in AllKeywords() <==> InCatalogue(word)
  {
    if word in AllKeywords() {
      if word in QueryKeywords { assert word in ListOf(Query); }
      else if word in ModificationKeywords { assert word in ListOf(Modification); }
      else if word in DefinitionKeywords { assert word in ListOf(Definition); }
      else if word in OperatorsAndFunctions { assert word in ListOf(OperatorFunction); }
      else { assert word in ListOf(Transaction); }
    }
  }

  /** The entries of `words` that contain a space, in their original order. */
  function KeepSpaced(words: seq<string>): (r: seq<string>)
    ensures forall w :: w in r <==> w in words && ' ' in w
    ensures |r| <= |words|
  {
    if words == [] then []
    else (if ' ' in words[0] then [words[0]] else []) + KeepSpaced(words[1..])
  }

  /** The compound keywords: every catalogue entry holding a space. */
  function CompoundKeywords(): seq<string> {
    KeepSpaced(AllKeywords())
  }

  /** Filtering a concatenation filters each part. */
  lemma {:induction false} KeepSpacedAppend(a: seq<string>, b: seq<string>)
    ensures KeepSpaced(a + b) == KeepSpaced(a) + KeepSpaced(b)
    decreases |a|
  {
    if a == [] {
      assert a + b == b;
    } else {
      assert (a + b)[0] == a[0] && (a + b)[1..] == a[1..] + b;
      KeepSpacedAppend(a[1..], b);
    }
  }

  /** Of the first six query keywords, GROUP BY and ORDER BY hold a space. */
  lemma QueryHeadCompounds()
    ensures KeepSpaced(QueryKeywords[..6]) == ["GROUP BY", "ORDER BY"]
  {
    assert QueryKeywords[..6] == ["SELECT", "FROM", "WHERE", "HAVING", "GROUP BY", "ORDER BY"];
    KeepSpacedHead("SELECT", "FROM", "WHERE", "HAVING");
  }

  /** Four one-word entries before GROUP BY and ORDER BY leave those two. */
  lemma KeepSpacedHead(w0: string, w1: string, w2: string, w3: string)
    requires ' ' !in w0 && ' ' !in w1 && ' ' !in w2 && ' ' !in w3
    ensures KeepSpaced([w0, w1, w2, w3, "GROUP BY", "ORDER BY"]) == ["GROUP BY", "ORDER BY"]
  {
    var ws := [w0, w1, w2, w3, "GROUP BY", "ORDER BY"];
    assert ' ' in "GROUP BY" && ' ' in "ORDER BY";
    assert KeepSpaced(ws[5..]) == ["ORDER BY"] by { assert ws[5..][1..] == []; }
    assert KeepSpaced(ws[4..]) == ["GROUP BY", "ORDER BY"] by { assert ws[4..][1..] == ws[5..]; }
    assert KeepSpaced(ws[3..]) == KeepSpaced(ws[4..]) by { assert ws[3..][1..] == ws[4..]; }
    assert KeepSpaced(ws[2..]) == KeepSpaced(ws[3..]) by { assert ws[2..][1..] == ws[3..]; }
    assert KeepSpaced(ws[1..]) == KeepSpaced(ws[2..]) by { assert ws[1..][1..] == ws[2..]; }
  }

  /**
   * `compoundKeywords` begins with GROUP BY and then ORDER BY, so their
   * `replace` passes are the first two to run.
   */
  lemma CompoundKeywordsStart()
    ensures |CompoundKeywords()| >= 2 && CompoundKeywords()[..2] == ["GROUP BY", "ORDER BY"]
  {
    var q := QueryKeywords;
    var rest := q[6..] + ModificationKeywords + DefinitionKeywords
      + OperatorsAndFunctions + TransactionKeywords;
    assert q == q[..6] + q[6..];
    assert AllKeywords() == q[..6] + rest;
    KeepSpacedAppend(q[..6], rest);
    QueryHeadCompounds();
  }

  /** A keyword is compound exactly when it is in some list and holds a space. */
  lemma CompoundKeywordsExact(word: string)
    ensures word in CompoundKeywords() <==> InCatalogue(word) && ' ' in word
  {
    AllKeywordsAreCatalogue(word);
  }

  /**
   * The canonical form of a catalogue entry: non-empty, upper-case ASCII
   * letters and spaces, starting and ending with a letter.
   */
  predicate Canonical(word: string) {
    && |word| > 0
    && (forall i :: 0 <= i < |word| ==> 'A' <= word[i] <= 'Z' || word[i] == ' ')
    && word[0] != ' ' && word[|word| - 1] != ' '
  }

  /** Every catalogue entry is canonical, so it equals its own upper-case form. */
  lemma CatalogueCanonical(word: string)
    requires InCatalogue(word)
    ensures Canonical(word)
    ensures Upper(word) == word
  {
    var k :| word in ListOf(k);
    ListCanonical(k);
    var i :| 0 <= i < |ListOf(k)| && ListOf(k)[i] == word;
    assert Canonical(word);
  }

  lemma ListCanonical(k: KeywordClass)
    ensures forall i :: 0 <= i < |ListOf(k)| ==> Canonical(ListOf(k)[i])
  {
    match k
    case Query => QueryCanonical();
    case Modification =>
    case Definition => DefinitionCanonical();
    case OperatorFunction => OperatorsCanonical();
    case Transaction =>
  }

  lemma QueryCanonical()
    ensures forall i :: 0 <= i < |QueryKeywords| ==> Canonical(QueryKeywords[i])
  {
    forall i | 0 <= i < |QueryKeywords| ensures Canonical(QueryKeywords[i]) {
    }
  }

  lemma DefinitionCanonical()
    ensures forall i :: 0 <= i < |DefinitionKeywords| ==> Canonical(DefinitionKeywords[i])
  {
    forall i | 0 <= i < |DefinitionKeywords| ensures Canonical(DefinitionKeywords[i]) {
    }
  }

  lemma OperatorsCanonical()
    ensures forall i :: 0 <= i < |OperatorsAndFunctions| ==> Canonical(OperatorsAndFunctions[i])
  {
    forall i | 0 <= i < |OperatorsAndFunctions| ensures Canonical(OperatorsAndFunctions[i]) {
    }
  }

  /** Every compound keyword has a class. */
  lemma CompoundHasClass(word: string)
    requires word in CompoundKeywords()
    ensures KeywordClassOf(word).Some?
    ensures Canonical(word) && Upper(word) == word
  {
    CompoundKeywordsExact(word);
    CatalogueCanonical(word);
  }

  // ---------------------------------------------------------------------------
  // The shape of the compound keywords

  /** A non-empty word of capital letters. */
  predicate Capitals(w: string) {
    |w| > 0 && forall k :: 0 <= k < |w| ==> 'A' <= w[k] <= 'Z'
  }

  /** Each compound keyword of the catalogue, split at its one space. */
  const CompoundWords: seq<(string, string)> := [
    ("GROUP", "BY"), ("ORDER", "BY"), ("INNER", "JOIN"), ("LEFT", "JOIN"),
    ("RIGHT", "JOIN"), ("FULL", "JOIN"), ("CROSS", "JOIN"), ("PRIMARY", "KEY"),
    ("FOREIGN", "KEY"), ("NOT", "NULL"), ("SIMILAR", "TO"), ("SET", "TRANSACTION"),
    ("ISOLATION", "LEVEL")
  ]

  /** `kw` is the `i`-th pair of words joined by a space. */
  predicate SplitsAs(kw: string, i: nat) {
    i < |CompoundWords| && kw == CompoundWords[i].0 + " " + CompoundWords[i].1
  }

  /** Every compound keyword is two words of capital letters joined by one space. */
  lemma CompoundSplit(kw: string) returns (i: nat)
    requires kw in CompoundKeywords()
    ensures SplitsAs(kw, i)
  {
    CompoundKeywordsExact(kw);
    var k :| kw in ListOf(k);
    var n :| 0 <= n < |ListOf(k)| && ListOf(k)[n] == kw;
    match k
    case Query => i := QuerySpaced(n);
    case Modification => ModificationSpaceless(n);
    case Definition => i := DefinitionSpaced(n);
    case OperatorFunction => i := OperatorsSpaced(n);
    case Transaction => i := TransactionSpaced(n);
  }

  lemma QuerySpaced(n: nat) returns (i: nat)
    requires n < |QueryKeywords| && ' ' in QueryKeywords[n]
    ensures SplitsAs(QueryKeywords[n], i)
  {
    if n < 8 {
      i := QueryHeadSpaced(n);
    } else if n < 16 {
      i := QueryMiddleSpaced(n);
    } else {
      QueryTailSpaceless(n);
    }
  }

  lemma QueryHeadSpaced(n: nat) returns (i: nat)
    requires n < 8 && ' ' in QueryKeywords[n]
    ensures SplitsAs(QueryKeywords[n], i)
  {
    if n == 4 { i := 0; }
    else { i := 1; }
  }

  lemma QueryMiddleSpaced(n: nat) returns (i: nat)
    requires 8 <= n < 16 && ' ' in QueryKeywords[n]
    ensures SplitsAs(QueryKeywords[n], i)
  {
    if n == 9 { i := 2; }
    else if n == 10 { i := 3; }
    else if n == 11 { i := 4; }
    else if n == 12 { i := 5; }
    else { i := 6; }
  }

  lemma QueryTailSpaceless(n: nat)
    requires 16 <= n < |QueryKeywords|
    ensures ' ' !in QueryKeywords[n]
  {
  }

  lemma ModificationSpaceless(n: nat)
    requires n < |ModificationKeywords|
    ensures ' ' !in ModificationKeywords[n]
  {
  }

  lemma DefinitionSpaced(n: nat) returns (i: nat)
    requires n < |DefinitionKeywords| && ' ' in DefinitionKeywords[n]
    ensures SplitsAs(DefinitionKeywords[n], i)
  {
    if n == 14 { i := 7; }
    else if n == 15 { i := 8; }
    else if n == 19 { i := 9; }
  }

  lemma OperatorsSpaced(n: nat) returns (i: nat)
    requires n < |OperatorsAndFunctions| && ' ' in OperatorsAndFunctions[n]
    ensures SplitsAs(OperatorsAndFunctions[n], i)
  {
    if n == 7 { i := 10; }
  }

  lemma TransactionSpaced(n: nat) returns (i: nat)
    requires n < |TransactionKeywords| && ' ' in TransactionKeywords[n]
    ensures SplitsAs(TransactionKeywords[n], i)
  {
    if n == 5 { i := 11; }
    else if n == 6 { i := 12; }
  }

  /** Both words of every compound keyword are capital letters. */
  lemma CompoundWordsCapitals(i: nat)
    requires i < |CompoundWords|
    ensures Capitals(CompoundWords[i].0) && Capitals(CompoundWords[i].1)
  {
  }

  /**
   * No two compound keywords share a first word, and no compound keyword's
   * second word is the first word of one.
   */
  lemma CompoundWordsApart(i: nat, j: nat)
    requires i < |CompoundWords| && j < |CompoundWords|
    ensures CompoundWords[i].0 == CompoundWords[j].0 ==> i == j
    ensures CompoundWords[i].1 != CompoundWords[j].0
  {
  }

  /**
   * Any two compound keywords, each two words of capitals joined by one
   * space: they are the same keyword when their first words agree, and the
   * second word of the one is never the first word of the other.
   */
  lemma CompoundPair(kw1: string, kw2: string) returns (a1: string, b1: string, a2: string, b2: string)
    requires kw1 in CompoundKeywords() && kw2 in CompoundKeywords()
    ensures kw1 == a1 + " " + b1 && kw2 == a2 + " " + b2
    ensures Capitals(a1) && Capitals(b1) && Capitals(a2) && Capitals(b2)
    ensures a1 == a2 ==> kw1 == kw2
    ensures b1 != a2
  {
    var i := CompoundSplit(kw1);
    var j := CompoundSplit(kw2);
    a1, b1 := CompoundWords[i].0, CompoundWords[i].1;
    a2, b2 := CompoundWords[j].0, CompoundWords[j].1;
    CompoundWordsCapitals(i);
    CompoundWordsCapitals(j);
    CompoundWordsApart(i, j);
  }
}
