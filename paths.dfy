/** The part of Python's `pathlib` that the file-name logic uses: joining a
    component with `/`, and a path's `name`, `suffix` and `with_suffix`. A path
    is its sequence of components; a name never contains the separator. */
module Paths {

  type Path = seq<string>

  /** `p / name` for one component. `pathlib` drops empty and `.` components,
      so joining either of those gives `p` back. */
  function Child(p: Path, name: string): (c: Path)
    ensures name != "" && name != "." ==> |c| == |p| + 1 && c[..|p|] == p && c[|p|] == name
    ensures name == "" || name == "." ==> c == p
  {
    if name == "" || name == "." then p else p + [name]
  }

  /** `p.name`: the last component, or the empty string for the empty path. */
  function Name(p: Path): string
  {
    if p == [] then "" else p[|p| - 1]
  }

  /** `s.rfind(c)`: the index of the last `c` in `s`, or -1. */
  function LastIndexOf(s: string, c: char): (r: int)
    ensures -1 <= r < |s|
    ensures r >= 0 ==> s[r] == c
    ensures forall k :: r < k < |s| ==> s[k] != c
    decreases |s|
  {
    if s == [] then -1
    else if s[|s| - 1] == c then |s| - 1
    else LastIndexOf(s[..|s| - 1], c)
  }

  /** `PurePath.suffix` of a name: from its last dot on, provided that dot is
      neither the first nor the last character; otherwise empty. */
  function Suffix(name: string): (r: string)
    ensures r == [] || (r[0] == '.' && '.' !in r[1..] && |r| >= 2 && |r| < |name|)
    ensures r == name[|name| - |r|..]
    ensures r != [] <==> exists i :: 0 < i < |name| - 1 && name[i] == '.' && '.' !in name[i + 1..]
  {
    var i := LastIndexOf(name, '.');
    if 0 < i < |name| - 1 then
      assert '.' !in name[i + 1..];
      assert forall k :: 0 <= k < |name[i..][1..]| ==> name[i..][1..][k] == name[i + 1 + k];
      name[i..]
    else []
  }

  /** A suffix `with_suffix` accepts and that `Suffix` gives back: a dot
      followed by at least one character, none of them a dot. */
  predicate PlainSuffix(suffix: string)
  {
    |suffix| >= 2 && suffix[0] == '.' && '.' !in suffix[1..]
  }

  /** `PurePath.with_suffix(suffix)` on a name: the old suffix, if any, is
      replaced by `suffix`. `pathlib` raises `ValueError` for an empty name. */
  function WithSuffix(name: string, suffix: string): (r: string)
    requires name != [] && PlainSuffix(suffix)
    ensures Suffix(r) == suffix
    ensures r[..|r| - |suffix|] == name[..|name| - |Suffix(name)|]
  {
    var current := Suffix(name);
    var stem := name[..|name| - |current|];
    var r := stem + suffix;
    assert |stem| > 0;
    assert r[|stem|] == '.';
    assert forall k :: |stem| < k < |r| ==> r[k] == suffix[1..][k - |stem| - 1];
    assert LastIndexOf(r, '.') == |stem|;
    assert r[|stem|..] == suffix;
    r
  }
}
