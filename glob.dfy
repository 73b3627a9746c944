/** Shell-style name matching as `pathlib`'s `glob` applies it to each entry of
    a directory (through `fnmatch`), for patterns made of literal characters and
    `*`, which matches any run of characters, dots included. Matching is
    case-sensitive, as it is for POSIX paths. */
module Glob {

  /** A pattern that uses no wildcard other than `*`. */
  predicate StarPattern(pat: string)
  {
    forall k :: 0 <= k < |pat| ==> pat[k] != '?' && pat[k] != '['
  }

  function Match(pat: string, name: string): bool
    requires StarPattern(pat)
    decreases |pat| + |name|
  {
    if pat == [] then name == []
    else if pat[0] == '*' then Match(pat[1..], name) || (name != [] && Match(pat, name[1..]))
    else name != [] && name[0] == pat[0] && Match(pat[1..], name[1..])
  }

  /** A leading `*` matches when the rest of the pattern matches some tail of the name. */
  lemma {:induction false} StarMatch(rest: string, name: string)
    requires StarPattern(['*'] + rest)
    ensures StarPattern(rest)
    ensures Match(['*'] + rest, name) <==> exists k :: 0 <= k <= |name| && Match(rest, name[k..])
    decreases |name|
  {
    var pat := ['*'] + rest;
    assert pat[1..] == rest;
    assert name[0..] == name;
    if name != [] {
      StarMatch(rest, name[1..]);
      assert forall k :: 1 <= k <= |name| ==> name[1..][k - 1..] == name[k..];
      if Match(pat, name[1..]) {
        var k :| 0 <= k <= |name[1..]| && Match(rest, name[1..][k..]);
        assert Match(rest, name[k + 1..]);
      }
      if exists k :: 0 <= k <= |name| && Match(rest, name[k..]) {
        var k :| 0 <= k <= |name| && Match(rest, name[k..]);
        if k > 0 {
          assert Match(rest, name[1..][k - 1..]);
        }
      }
    }
  }

  /** `*c*` matches exactly the names that contain the character `c`. */
  lemma StarCharStar(c: char, name: string)
    requires c != '*' && c != '?' && c != '['
    ensures StarPattern(['*', c, '*'])
    ensures Match(['*', c, '*'], name) <==> exists m :: 0 <= m < |name| && name[m] == c
  {
    var cStar := [c, '*'];
    assert ['*', c, '*'] == ['*'] + cStar;
    StarMatch(cStar, name);
    forall t: string ensures Match(cStar, t) <==> t != [] && t[0] == c {
      assert cStar[1..] == ['*'] == ['*'] + [];
      if t != [] {
        StarMatch([], t[1..]);
        assert Match([], t[1..][|t[1..]|..]);
      }
    }
    if Match(['*', c, '*'], name) {
      var k :| 0 <= k <= |name| && Match(cStar, name[k..]);
      assert name[k..][0] == name[k];
    }
    if exists m :: 0 <= m < |name| && name[m] == c {
      var m :| 0 <= m < |name| && name[m] == c;
      assert name[m..][0] == c;
      assert Match(cStar, name[m..]);
    }
  }
}
