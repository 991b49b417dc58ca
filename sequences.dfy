/** Generic facts about sequences: Python's filtering list comprehension and
    pandas' row filters are both instances of `Filter`. */
module Sequences {

  /** `sub` is obtained from `s` by deleting some elements, keeping the order
      of the rest. */
  predicate IsSubsequence<T(==)>(sub: seq<T>, s: seq<T>)
    decreases |s|
  {
    && |sub| <= |s|
    && (|sub| == 0
        || (sub[0] == s[0] && IsSubsequence(sub[1..], s[1..]))
        || IsSubsequence(sub, s[1..]))
  }

  /** Every earlier element stands in relation `before` to every later one. */
  predicate Ordered<T>(s: seq<T>, before: (T, T) -> bool)
  {
    forall i, j :: 0 <= i < j < |s| ==> before(s[i], s[j])
  }

  /** The elements of `s` that satisfy `keep`, in their order in `s`:
      `[x for x in s if keep(x)]`. */
  function Filter<T(==)>(s: seq<T>, keep: T -> bool): (r: seq<T>)
    ensures |r| <= |s|
    ensures forall x :: x in r ==> x in s && keep(x)
    ensures forall x :: x in s && keep(x) ==> multiset(r)[x] == multiset(s)[x]
    ensures IsSubsequence(r, s)
  {
    if |s| == 0 then []
    else
      var rest := Filter(s[1..], keep);
      assert s == [s[0]] + s[1..];
      assert multiset(s) == multiset{s[0]} + multiset(s[1..]);
      if keep(s[0]) then
        assert ([s[0]] + rest)[1..] == rest;
        [s[0]] + rest
      else
        assert forall x :: x in s && keep(x) ==> x in s[1..];
        rest
  }

  /** Filtering with a condition every element meets keeps the whole sequence. */
  lemma {:induction false} FilterKeepsAll<T>(s: seq<T>, keep: T -> bool)
    requires forall i :: 0 <= i < |s| ==> keep(s[i])
    ensures Filter(s, keep) == s
  {
    if |s| > 0 {
      FilterKeepsAll(s[1..], keep);
    }
  }

  /** Filtering a filtered sequence again with the same condition changes nothing. */
  lemma FilterIdempotent<T>(s: seq<T>, keep: T -> bool)
    ensures Filter(Filter(s, keep), keep) == Filter(s, keep)
  {
    var r := Filter(s, keep);
    forall i | 0 <= i < |r| ensures keep(r[i]) {
      assert r[i] in r;
    }
    FilterKeepsAll(r, keep);
  }

  /** A subsequence of an ordered sequence is ordered. */
  lemma {:induction false} SubsequenceKeepsOrder<T>(sub: seq<T>, s: seq<T>, before: (T, T) -> bool)
    requires IsSubsequence(sub, s)
    requires Ordered(s, before)
    ensures Ordered(sub, before)
    decreases |s|
  {
    if |sub| == 0 {
    } else if sub[0] == s[0] && IsSubsequence(sub[1..], s[1..]) {
      SubsequenceKeepsOrder(sub[1..], s[1..], before);
      SubsequenceElements(sub[1..], s[1..]);
      forall i, j | 0 <= i < j < |sub| ensures before(sub[i], sub[j]) {
        if i == 0 {
          assert sub[j] == sub[1..][j - 1];
          assert sub[j] in sub[1..];
          var k :| 0 <= k < |s[1..]| && s[1..][k] == sub[j];
          assert before(s[0], s[k + 1]);
        } else {
          assert sub[i] == sub[1..][i - 1] && sub[j] == sub[1..][j - 1];
        }
      }
    } else {
      SubsequenceKeepsOrder(sub, s[1..], before);
    }
  }

  /** Every element of a subsequence occurs in the sequence. */
  lemma {:induction false} SubsequenceElements<T>(sub: seq<T>, s: seq<T>)
    requires IsSubsequence(sub, s)
    ensures forall x :: x in sub ==> exists k :: 0 <= k < |s| && s[k] == x
    decreases |s|
  {
    if |sub| == 0 {
    } else if sub[0] == s[0] && IsSubsequence(sub[1..], s[1..]) {
      SubsequenceElements(sub[1..], s[1..]);
      forall x | x in sub ensures exists k :: 0 <= k < |s| && s[k] == x {
        if x == sub[0] {
          assert s[0] == x;
        } else {
          assert x in sub[1..];
          var k :| 0 <= k < |s[1..]| && s[1..][k] == x;
          assert s[k + 1] == x;
        }
      }
    } else {
      SubsequenceElements(sub, s[1..]);
      forall x | x in sub ensures exists k :: 0 <= k < |s| && s[k] == x {
        var k :| 0 <= k < |s[1..]| && s[1..][k] == x;
        assert s[k + 1] == x;
      }
    }
  }
}
