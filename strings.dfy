/** The three Python string operations that the file-name logic is built from:
    the substring test `pat in s`, `s.replace(target, repl)` and `s.split(sep)[0]`. */
module Strings {

  /** `pat` occurs in `s` at index `i`. */
  predicate OccursAt(s: string, pat: string, i: nat)
  {
    i + |pat| <= |s| && s[i..i + |pat|] == pat
  }

  /** Dropping the first character of `s` shifts every occurrence one place left. */
  lemma OccursInTail(s: string, pat: string)
    requires s != []
    ensures forall i: nat :: OccursAt(s[1..], pat, i) == OccursAt(s, pat, i + 1)
    ensures forall i: nat :: 0 < i ==> OccursAt(s, pat, i) == OccursAt(s[1..], pat, i - 1)
  {
    forall i: nat ensures OccursAt(s[1..], pat, i) == OccursAt(s, pat, i + 1) {
      if i + 1 + |pat| <= |s| {
        assert s[1..][i..i + |pat|] == s[i + 1..i + 1 + |pat|];
      }
    }
  }

  /** Python's `pat in s`, computed by scanning `s` from the left. */
  function Contains(s: string, pat: string): (b: bool)
    ensures b <==> exists i: nat :: OccursAt(s, pat, i)
    decreases |s|
  {
    if |s| < |pat| then
      false
    else if s[..|pat|] == pat then
      assert OccursAt(s, pat, 0);
      true
    else
      OccursInTail(s, pat);
      Contains(s[1..], pat)
  }

  /** No occurrence of `pat` in `s` starts before index `n`. */
  predicate NoOccurrenceBefore(s: string, pat: string, n: nat)
  {
    forall i: nat :: i < n ==> !OccursAt(s, pat, i)
  }

  /** Wherever `p` holds the first character of `pat`, the next character of
      `p` is not the second one, so no occurrence of `pat` starts inside `p`. */
  predicate HeadsNotFollowed(p: string, pat: string)
    requires |pat| >= 2
  {
    forall i :: 0 <= i < |p| && p[i] == pat[0] ==> i + 1 < |p| && p[i + 1] != pat[1]
  }

  lemma HeadsNotFollowedConcat(a: string, b: string, pat: string)
    requires |pat| >= 2 && HeadsNotFollowed(a, pat) && HeadsNotFollowed(b, pat)
    ensures HeadsNotFollowed(a + b, pat)
  {
    forall i | 0 <= i < |a + b| && (a + b)[i] == pat[0]
      ensures i + 1 < |a + b| && (a + b)[i + 1] != pat[1]
    {
      if i < |a| {
        assert a[i] == pat[0];
      } else {
        assert b[i - |a|] == pat[0];
      }
    }
  }

  lemma HeadsNotFollowedNoOccurrence(p: string, s: string, pat: string)
    requires |pat| >= 2 && HeadsNotFollowed(p, pat)
    ensures NoOccurrenceBefore(p + s, pat, |p|)
  {
    forall i: nat | i < |p| ensures !OccursAt(p + s, pat, i) {
      if i + |pat| <= |p + s| {
        assert (p + s)[i..i + |pat|][0] == p[i];
        if p[i] == pat[0] {
          assert (p + s)[i..i + |pat|][1] == p[i + 1];
        }
      }
    }
  }

  /** Whether `p + s` contains `pat` is decided in `s` when no occurrence starts in `p`. */
  lemma {:induction false} ContainsSkipsPrefix(p: string, s: string, pat: string)
    requires NoOccurrenceBefore(p + s, pat, |p|)
    ensures Contains(p + s, pat) == Contains(s, pat)
    decreases |p|
  {
    if p == [] {
      assert p + s == s;
    } else {
      var t := p + s;
      assert t[1..] == p[1..] + s;
      OccursInTail(t, pat);
      assert !OccursAt(t, pat, 0);
      ContainsSkipsPrefix(p[1..], s, pat);
    }
  }

  /** Containment is transitive: a string that contains `mid` contains
      everything `mid` contains. */
  lemma ContainsTransitive(s: string, mid: string, pat: string)
    requires Contains(s, mid) && Contains(mid, pat)
    ensures Contains(s, pat)
  {
    var i: nat :| OccursAt(s, mid, i);
    var j: nat :| OccursAt(mid, pat, j);
    forall k | 0 <= k < |pat| ensures s[i + j..i + j + |pat|][k] == pat[k] {
      assert s[i + j..i + j + |pat|][k] == s[i..i + |mid|][j + k];
      assert mid[j..j + |pat|][k] == mid[j + k];
    }
    assert OccursAt(s, pat, i + j);
  }

  /** A string lacking one of `pat`'s characters cannot contain `pat`. */
  lemma MissingCharNotContained(s: string, pat: string, k: nat)
    requires k < |pat| && pat[k] !in s
    ensures !Contains(s, pat)
  {
    forall i: nat ensures !OccursAt(s, pat, i) {
      if i + |pat| <= |s| {
        assert s[i..i + |pat|][k] == s[i + k];
      }
    }
  }

  /** Python's `s.replace(target, repl)`: every non-overlapping occurrence of
      `target`, found from the left, is replaced by `repl`. The source only
      ever passes a non-empty literal as `target`. */
  function ReplaceAll(s: string, target: string, repl: string): string
    requires target != []
    decreases |s|
  {
    if |s| < |target| then s
    else if s[..|target|] == target then repl + ReplaceAll(s[|target|..], target, repl)
    else [s[0]] + ReplaceAll(s[1..], target, repl)
  }

  /** A name in which `target` does not occur comes back unchanged. */
  lemma {:induction false} ReplaceAllAbsent(s: string, target: string, repl: string)
    requires target != [] && !Contains(s, target)
    ensures ReplaceAll(s, target, repl) == s
    decreases |s|
  {
    if |s| >= |target| {
      assert !OccursAt(s, target, 0);
      OccursInTail(s, target);
      ReplaceAllAbsent(s[1..], target, repl);
    }
  }

  /** Text before the first occurrence of `target` is copied unchanged. */
  lemma {:induction false} ReplaceAllSkipsPrefix(p: string, s: string, target: string, repl: string)
    requires target != [] && NoOccurrenceBefore(p + s, target, |p|)
    ensures ReplaceAll(p + s, target, repl) == p + ReplaceAll(s, target, repl)
    decreases |p|
  {
    var t := p + s;
    if p == [] {
      assert t == s;
    } else if |t| < |target| {
      assert |s| < |target|;
    } else {
      assert !OccursAt(t, target, 0);
      assert t[1..] == p[1..] + s;
      OccursInTail(t, target);
      assert ReplaceAll(t, target, repl) == [t[0]] + ReplaceAll(t[1..], target, repl);
      ReplaceAllSkipsPrefix(p[1..], s, target, repl);
      assert p == [p[0]] + p[1..];
    }
  }

  /** An occurrence of `target` at the front is replaced and the scan resumes after it. */
  lemma ReplaceAllAtFront(s: string, target: string, repl: string)
    requires target != []
    ensures ReplaceAll(target + s, target, repl) == repl + ReplaceAll(s, target, repl)
  {
    assert (target + s)[..|target|] == target;
    assert (target + s)[|target|..] == s;
  }

  /** A name with exactly one occurrence of `target` gets exactly that one replaced. */
  lemma ReplaceAllOnce(p: string, target: string, rest: string, repl: string)
    requires target != [] && NoOccurrenceBefore(p + target + rest, target, |p|) && !Contains(rest, target)
    ensures ReplaceAll(p + target + rest, target, repl) == p + repl + rest
  {
    assert p + target + rest == p + (target + rest);
    ReplaceAllSkipsPrefix(p, target + rest, target, repl);
    ReplaceAllAtFront(rest, target, repl);
    ReplaceAllAbsent(rest, target, repl);
  }

  /** Python's `s.split(sep)[0]`: the text before the first `sep`, or all of `s`. */
  function FirstField(s: string, sep: char): (r: string)
    ensures r <= s
    ensures sep !in r
    ensures r == s || s[|r|] == sep
    decreases |s|
  {
    if s == [] || s[0] == sep then [] else [s[0]] + FirstField(s[1..], sep)
  }

  /** The three properties in FirstField's contract determine its result. */
  lemma {:induction false} FirstFieldUnique(s: string, sep: char, r: string)
    requires r <= s && sep !in r && (r == s || s[|r|] == sep)
    ensures r == FirstField(s, sep)
    decreases |s|
  {
    if s != [] && s[0] != sep {
      assert |r| > 0;
      assert r[0] == s[0];
      assert r[1..] <= s[1..];
      assert forall k :: 0 <= k < |r[1..]| ==> r[1..][k] == r[k + 1];
      assert r[1..] == s[1..] || s[1..][|r[1..]|] == sep;
      FirstFieldUnique(s[1..], sep, r[1..]);
      assert r == [r[0]] + r[1..];
    }
  }
}
