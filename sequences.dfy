/** Facts about sequences of any element type: slices of a concatenation,
    subsequences that keep order, and sequences without repeated elements. */
module Sequences {

  /** A slice inside the first part of a concatenation is a slice of that part. */
  lemma SliceOfAppend<T>(a: seq<T>, b: seq<T>, lo: nat, hi: nat)
    requires lo <= hi <= |a|
    ensures (a + b)[lo..hi] == a[lo..hi]
  {
    assert forall k :: lo <= k < hi ==> (a + b)[k] == a[k];
  }

  /** A slice of the second part of a concatenation, shifted past the first. */
  lemma SliceAfterPrefix<T>(a: seq<T>, b: seq<T>, lo: nat, hi: nat)
    requires lo <= hi <= |b|
    ensures (a + b)[|a| + lo .. |a| + hi] == b[lo..hi]
  {
    assert forall k :: lo <= k < hi ==> (a + b)[|a| + k] == b[k];
  }

  /** `s` is `t` with some elements dropped, the rest kept in their order. */
  predicate SubSequence<T(==)>(s: seq<T>, t: seq<T>)
    decreases |t|
  {
    s == [] || (t != [] && ((s[0] == t[0] && SubSequence(s[1..], t[1..])) || SubSequence(s, t[1..])))
  }

  /** Each element of a subsequence occurs in the longer sequence at or after
      the position it has in the subsequence. */
  lemma {:induction false} SubSequenceElement<T>(s: seq<T>, t: seq<T>, i: nat)
    requires SubSequence(s, t) && i < |s|
    ensures exists a :: i <= a < |t| && t[a] == s[i]
    decreases |t|
  {
    if s[0] == t[0] && SubSequence(s[1..], t[1..]) {
      if i == 0 {
        assert t[0] == s[0];
      } else {
        SubSequenceElement(s[1..], t[1..], i - 1);
        var a :| i - 1 <= a < |t[1..]| && t[1..][a] == s[1..][i - 1];
        assert t[a + 1] == s[i];
      }
    } else {
      SubSequenceElement(s, t[1..], i);
      var a :| i <= a < |t[1..]| && t[1..][a] == s[i];
      assert t[a + 1] == s[i];
    }
  }

  /** A subsequence keeps order: two elements of it occur in the longer
      sequence in the same order. */
  lemma {:induction false} SubSequenceOrder<T>(s: seq<T>, t: seq<T>, i: nat, j: nat)
    requires SubSequence(s, t) && i < j < |s|
    ensures exists a, b :: 0 <= a < b < |t| && t[a] == s[i] && t[b] == s[j]
    decreases |t|
  {
    if s[0] == t[0] && SubSequence(s[1..], t[1..]) {
      if i == 0 {
        SubSequenceElement(s[1..], t[1..], j - 1);
        var b :| j - 1 <= b < |t[1..]| && t[1..][b] == s[1..][j - 1];
        assert t[0] == s[0] && t[b + 1] == s[j];
      } else {
        SubSequenceOrder(s[1..], t[1..], i - 1, j - 1);
        var a, b :| 0 <= a < b < |t[1..]| && t[1..][a] == s[1..][i - 1] && t[1..][b] == s[1..][j - 1];
        assert t[a + 1] == s[i] && t[b + 1] == s[j];
      }
    } else {
      SubSequenceOrder(s, t[1..], i, j);
      var a, b :| 0 <= a < b < |t[1..]| && t[1..][a] == s[i] && t[1..][b] == s[j];
      assert t[a + 1] == s[i] && t[b + 1] == s[j];
    }
  }

  predicate Distinct<T(==)>(s: seq<T>)
  {
    forall i, j :: 0 <= i < j < |s| ==> s[i] != s[j]
  }
}
