/**
 * Small facts about sequences, stated once so that the proofs using them
 * need no reasoning about sequence equality of their own.
 */
module Seqs {

  lemma ConsTail<X>(x: X, r: seq<X>)
    ensures ([x] + r)[0] == x && ([x] + r)[1..] == r
  {
  }

  lemma HeadTail<X>(s: seq<X>)
    requires s != []
    ensures s == [s[0]] + s[1..]
  {
  }

  lemma ConsAppend<X>(a: seq<X>, b: seq<X>)
    requires a != []
    ensures a + b == [a[0]] + (a[1..] + b)
  {
    HeadTail(a);
  }

  lemma AppendTail<X>(a: seq<X>, b: seq<X>)
    requires a != []
    ensures (a + b)[0] == a[0] && (a + b)[1..] == a[1..] + b
  {
  }

  lemma AppendAssoc<X>(a: seq<X>, b: seq<X>, c: seq<X>)
    ensures a + (b + c) == (a + b) + c
  {
  }

  lemma SliceJoin<X>(s: seq<X>, i: nat, j: nat)
    requires i <= j <= |s|
    ensures s[..i] + s[i..j] + s[j..] == s
  {
  }

  lemma SliceThree<X>(s: seq<X>, a: nat, b: nat, c: nat)
    requires a <= b <= c <= |s|
    ensures s[a..] == s[a..b] + s[b..c] + s[c..]
  {
    assert s[a..] == s[a..b] + s[b..];
    assert s[b..] == s[b..c] + s[c..];
  }

  lemma PrefixTail<X>(s: seq<X>, i: nat)
    requires 0 < i <= |s|
    ensures s[..i] == [s[0]] + s[1..][..i - 1]
  {
  }

  lemma EmptyAppend<X>(s: seq<X>)
    ensures [] + s == s
  {
  }
}
