/** The parts of pathlib the core relies on: a path is a directory string and a final name. */
module Paths {
  import opened Wrappers

  datatype Path = Path(dir: string, name: string)

  /** `Path(dir) / name`, as a string. */
  function JoinDir(dir: string, name: string): string {
    dir + "/" + name
  }

  /** `str(path)`. */
  function PathString(p: Path): string {
    JoinDir(p.dir, p.name)
  }

  /** Within one directory, distinct names give distinct path strings. */
  lemma PathStringInjective(p: Path, q: Path)
    requires p.dir == q.dir && PathString(p) == PathString(q)
    ensures p == q
  {
    assert p.name == PathString(p)[|p.dir| + 1..];
    assert q.name == PathString(q)[|q.dir| + 1..];
  }

  /** Index of the last '.' in `s`, or -1 when there is none (`str.rfind('.')`). */
  function LastDot(s: string): (r: int)
    ensures -1 <= r < |s|
    ensures r >= 0 ==> s[r] == '.'
    ensures forall k :: r < k < |s| ==> s[k] != '.'
    decreases |s|
  {
    if |s| == 0 then -1
    else if s[|s| - 1] == '.' then |s| - 1
    else LastDot(s[..|s| - 1])
  }

  /** A suffix as pathlib accepts it: a dot followed by at least one character, none of them a dot. */
  predicate IsSuffixText(s: string) {
    |s| >= 2 && s[0] == '.' && forall k :: 0 < k < |s| ==> s[k] != '.'
  }

  /** `PurePath.suffix`: from the last dot to the end, unless that dot starts the name or ends it. */
  function Suffix(name: string): (s: string)
    ensures |s| < |name| || s == ""
    ensures s == name[|name| - |s|..]
    ensures s == "" || IsSuffixText(s)
    ensures s != "" <==> 0 < LastDot(name) < |name| - 1
    ensures s != "" ==> |s| == |name| - LastDot(name)
  {
    var i := LastDot(name);
    if 0 < i < |name| - 1 then name[i..] else ""
  }

  /** `PurePath.stem`: the name without its suffix. */
  function Stem(name: string): string {
    name[..|name| - |Suffix(name)|]
  }

  /** `PurePath.with_suffix(suffix)`: None where pathlib raises ValueError (an empty name). */
  function WithSuffix(p: Path, suffix: string): (r: Option<Path>)
    ensures r.Some? <==> p.name != ""
    ensures r.Some? ==> r.value.dir == p.dir
  {
    if p.name == "" then None else Some(Path(p.dir, Stem(p.name) + suffix))
  }

  /** Replacing the suffix and reading it back gives the new suffix and keeps the stem. */
  lemma WithSuffixRoundTrip(p: Path, ext: string)
    requires p.name != "" && IsSuffixText(ext)
    ensures WithSuffix(p, ext).Some?
    ensures Suffix(WithSuffix(p, ext).value.name) == ext
    ensures Stem(WithSuffix(p, ext).value.name) == Stem(p.name)
  {
    var stem := Stem(p.name);
    assert |stem| >= 1;
    var n := stem + ext;
    assert n == WithSuffix(p, ext).value.name;
    assert n[|stem|] == '.';
    assert LastDot(n) == |stem|;
    assert n[|stem|..] == ext;
  }

  /** ASCII lower-casing of one character. */
  function LowerChar(c: char): char {
    if 'A' <= c <= 'Z' then (c as int + 32) as char else c
  }

  /** `str.lower()`, on ASCII letters. */
  function Lower(s: string): string {
    seq(|s|, i requires 0 <= i < |s| => LowerChar(s[i]))
  }
}
