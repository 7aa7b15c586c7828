/** Order and subsequence facts about sequences, shared by the pipeline stages. */
module Seqs {

  /** Every element is smaller than the next one: sorted with no duplicates. */
  ghost predicate StrictlyIncreasing(s: seq<int>) {
    forall i, j :: 0 <= i < j < |s| ==> s[i] < s[j]
  }

  /** No value occurs twice. */
  ghost predicate Distinct<T>(s: seq<T>) {
    forall i, j :: 0 <= i < j < |s| ==> s[i] != s[j]
  }

  /** `a` is obtained from `b` by deleting elements, keeping the order of the rest. */
  ghost predicate IsSubsequence<T>(a: seq<T>, b: seq<T>)
    decreases |b|
  {
    if a == [] then true
    else if b == [] then false
    else (a[0] == b[0] && IsSubsequence(a[1..], b[1..])) || IsSubsequence(a, b[1..])
  }

  lemma {:induction false} SubsequenceMembers<T>(a: seq<T>, b: seq<T>)
    requires IsSubsequence(a, b)
    ensures forall x :: x in a ==> x in b
    decreases |b|
  {
    if a != [] && b != [] {
      if a[0] == b[0] && IsSubsequence(a[1..], b[1..]) {
        SubsequenceMembers(a[1..], b[1..]);
        forall x | x in a ensures x in b {
          if x != a[0] { assert x in a[1..]; }
        }
      } else {
        SubsequenceMembers(a, b[1..]);
      }
    }
  }

  /** A subsequence of a strictly increasing sequence is strictly increasing. */
  lemma {:induction false} SubsequenceIncreasing(a: seq<int>, b: seq<int>)
    requires IsSubsequence(a, b) && StrictlyIncreasing(b)
    ensures StrictlyIncreasing(a)
    decreases |b|
  {
    if a != [] && b != [] {
      if a[0] == b[0] && IsSubsequence(a[1..], b[1..]) {
        SubsequenceIncreasing(a[1..], b[1..]);
        SubsequenceMembers(a[1..], b[1..]);
        forall j | 0 < j < |a| ensures a[0] < a[j] {
          assert a[j] in a[1..];
          assert a[j] in b[1..];
        }
      } else {
        SubsequenceIncreasing(a, b[1..]);
      }
    }
  }

  lemma ConsIncreasing(x: int, s: seq<int>)
    requires StrictlyIncreasing(s) && forall y :: y in s ==> x < y
    ensures StrictlyIncreasing([x] + s)
  {
    var r := [x] + s;
    forall i, j | 0 <= i < j < |r| ensures r[i] < r[j] {
      if i == 0 { assert r[j] == s[j - 1] && s[j - 1] in s; }
    }
  }

  lemma TailIncreasing(s: seq<int>)
    requires StrictlyIncreasing(s) && s != []
    ensures StrictlyIncreasing(s[1..])
    ensures forall y :: y in s[1..] ==> s[0] < y
  {
  }

  /** In an increasing concatenation every element of the front is below every element of the back. */
  lemma ConcatIncreasing(a: seq<int>, b: seq<int>)
    requires StrictlyIncreasing(a + b)
    ensures forall x, y :: x in a && y in b ==> x < y
  {
    forall x, y | x in a && y in b ensures x < y {
      var k :| 0 <= k < |a| && a[k] == x;
      var p :| 0 <= p < |b| && b[p] == y;
      assert (a + b)[k] == x && (a + b)[|a| + p] == y;
    }
  }
}
