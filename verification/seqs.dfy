/** Facts about sequences used to state what the registry queries return:
    no element twice, and "these elements, in this order". */
module Seqs {

  /** No element occurs twice in `s`. */
  predicate Distinct<T(==)>(s: seq<T>)
  {
    forall i, j :: 0 <= i < j < |s| ==> s[i] != s[j]
  }

  /** `r` is obtained from `s` by deleting elements, keeping the order of
      the rest (greedy left-to-right matching, which finds a match whenever
      one exists). */
  predicate IsSubsequence<T(==)>(r: seq<T>, s: seq<T>)
    decreases |s|
  {
    if r == [] then true
    else if s == [] then false
    else if r[0] == s[0] then IsSubsequence(r[1..], s[1..])
    else IsSubsequence(r, s[1..])
  }

  /** Every element of a subsequence is an element of the sequence it was
      taken from, and a subsequence is never longer. */
  lemma {:induction false} SubsequenceElements<T>(r: seq<T>, s: seq<T>)
    requires IsSubsequence(r, s)
    ensures |r| <= |s|
    ensures forall x :: x in r ==> x in s
    decreases |s|
  {
    if r == [] {
    } else if r[0] == s[0] {
      SubsequenceElements(r[1..], s[1..]);
      forall x | x in r ensures x in s {
        if x != r[0] {
          assert x in r[1..];
        }
      }
    } else {
      SubsequenceElements(r, s[1..]);
    }
  }

  /** Deleting elements from a sequence without repeats leaves a sequence
      without repeats. */
  lemma {:induction false} SubsequenceDistinct<T>(r: seq<T>, s: seq<T>)
    requires IsSubsequence(r, s) && Distinct(s)
    ensures Distinct(r)
    decreases |s|
  {
    if r == [] {
      return;
    }
    assert Distinct(s[1..]) by {
      forall i, j | 0 <= i < j < |s[1..]| ensures s[1..][i] != s[1..][j] {
        assert s[1..][i] == s[i + 1] && s[1..][j] == s[j + 1];
      }
    }
    if r[0] == s[0] {
      SubsequenceDistinct(r[1..], s[1..]);
      SubsequenceElements(r[1..], s[1..]);
      forall i, j | 0 <= i < j < |r| ensures r[i] != r[j] {
        if i == 0 {
          assert r[j] == r[1..][j - 1];
          assert r[j] in s[1..];
          var k :| 0 <= k < |s[1..]| && s[1..][k] == r[j];
          assert s[k + 1] == r[j];
        } else {
          assert r[i] == r[1..][i - 1] && r[j] == r[1..][j - 1];
        }
      }
    } else {
      SubsequenceDistinct(r, s[1..]);
    }
  }
}
