/**
 * Path strings as `lib/index.js` handles them: `path.dirname`, `path.basename`,
 * `path.resolve(dir, entry)` on already-resolved paths, and the source-to-runtime
 * path mirror `getRuntimeFile`.
 */
module Paths {
  import opened Common

  type Path = string

  /** The names `readdir` returns: non-empty, without a separator, never `.` or `..`. */
  predicate IsName(s: string)
  {
    |s| > 0 && '/' !in s && s != "." && s != ".."
  }

  type Name = s: string | IsName(s) witness "a"

  /**
   * `p` lies strictly below `dir` as a string: `dir` is a proper prefix of it, or,
   * for the current directory `.`, `p` is any other relative path.
   */
  predicate Under(dir: Path, p: Path)
  {
    if dir == "." then |p| > 0 && p[0] != '/' && p != "."
    else |dir| < |p| && p[..|dir|] == dir
  }

  lemma UnderTransitive(a: Path, b: Path, c: Path)
    requires Under(a, b) && Under(b, c)
    ensures Under(a, c)
  {
    if a != "." && b != "." {
      assert c[..|a|] == c[..|b|][..|a|];
    } else if a == "." && b != "." {
      assert c[0] == c[..|b|][0] == b[0];
    }
  }

  /** A path without a trailing separator, unless it is the root. */
  predicate Tidy(p: Path)
  {
    |p| > 0 && (p == "/" || p[|p| - 1] != '/')
  }

  /**
   * `path.resolve(dir, name)` for an entry `name` listed in directory `dir`, on the
   * path as spelled: the entry appended after a separator, and a bare name below `.`.
   */
  function Join(dir: Path, name: Name): Path
  {
    if dir == "." then name
    else if |dir| > 0 && dir[|dir| - 1] == '/' then dir + name else dir + "/" + name
  }

  /** A join lies below its directory and has no trailing separator. */
  lemma JoinBelow(dir: Path, name: Name)
    ensures Under(dir, Join(dir, name)) && Tidy(Join(dir, name))
  {
  }

  /** Index of the last separator in `p`, or -1 when there is none. */
  function LastSlash(p: Path): (r: int)
    ensures -1 <= r < |p|
    ensures r >= 0 ==> p[r] == '/'
    ensures forall k :: r < k < |p| ==> p[k] != '/'
  {
    if |p| == 0 then -1
    else if p[|p| - 1] == '/' then |p| - 1
    else LastSlash(p[..|p| - 1])
  }

  /** `path.dirname(p)` for a path without repeated or trailing separators. */
  function Dirname(p: Path): (r: Path)
    ensures r == "." || r == "/" || (|r| < |p| && p[..|r|] == r)
  {
    var i := LastSlash(p);
    if i < 0 then "." else if i == 0 then "/" else p[..i]
  }

  /** `path.basename(p)`: the text after the last separator. */
  function Basename(p: Path): (r: string)
    ensures '/' !in r
  {
    var i := LastSlash(p);
    var r := p[i + 1..];
    assert forall k :: 0 <= k < |r| ==> r[k] != '/' by {
      forall k | 0 <= k < |r| ensures r[k] != '/' {
        assert r[k] == p[i + 1 + k];
      }
    }
    r
  }

  /** The roots `/` and `.` are their own dirname; `mkdirsSync` recurses towards them. */
  function Height(p: Path): nat
  {
    if Dirname(p) == p then 0 else |p| + 1
  }

  lemma DirnameRoots()
    ensures Dirname("/") == "/" && Dirname(".") == "."
  {
    assert LastSlash("/") == 0;
    assert LastSlash(".") == LastSlash("");
  }

  lemma DirnameDescends(p: Path)
    requires Dirname(p) != p
    ensures Height(Dirname(p)) < Height(p)
  {
    DirnameRoots();
  }

  /** A tidy directory and an entry name are recovered from their join. */
  lemma JoinSplit(dir: Path, name: Name)
    requires Tidy(dir)
    ensures Dirname(Join(dir, name)) == dir && Basename(Join(dir, name)) == name && Join(dir, name) != dir
  {
    var p := Join(dir, name);
    var i := LastSlash(p);
    if dir == "." {
      assert '/' !in p;
      assert i < 0;
    } else {
      var at := if dir == "/" then 0 else |dir|;
      assert p[at] == '/';
      assert p[at + 1..] == name;
      forall k | at < k < |p|
        ensures p[k] != '/'
      {
        assert p[k] == name[k - at - 1];
      }
      assert i == at;
      if dir != "/" {
        assert p[..at] == dir;
      }
    }
  }

  /** `dir` is a proper ancestor of `p`: some repeated `dirname` of `p` is `dir`. */
  predicate Within(dir: Path, p: Path)
    decreases Height(p)
  {
    Dirname(p) != p && (Dirname(p) == dir || (DirnameDescends(p); Within(dir, Dirname(p))))
  }

  lemma {:induction false} WithinTransitive(a: Path, b: Path, c: Path)
    requires Within(a, b) && Within(b, c)
    ensures Within(a, c)
    decreases Height(c)
  {
    if Dirname(c) != b {
      DirnameDescends(c);
      WithinTransitive(a, b, Dirname(c));
    }
  }

  /** `pat` occurs in `s` starting at index `i`. */
  predicate OccursAt(s: string, pat: string, i: nat)
  {
    i + |pat| <= |s| && s[i..i + |pat|] == pat
  }

  /** `s.indexOf(pat, from)`: the first occurrence of `pat` at or after `from`. */
  function IndexOf(s: string, pat: string, from: nat): (r: Option<nat>)
    requires from <= |s|
    ensures r.Some? ==> from <= r.value && OccursAt(s, pat, r.value)
    ensures forall j: nat :: from <= j && (r.None? || j < r.value) ==> !OccursAt(s, pat, j)
    decreases |s| - from
  {
    if OccursAt(s, pat, from) then Some(from)
    else if from == |s| then None
    else IndexOf(s, pat, from + 1)
  }

  /** The first occurrence of `pat` in `s` is at `i`. */
  predicate FirstAt(s: string, pat: string, i: nat)
  {
    OccursAt(s, pat, i) && forall j: nat :: j < i ==> !OccursAt(s, pat, j)
  }

  /**
   * `getRuntimeFile`: `file.replace(appName, runtimeName)` with a string pattern,
   * so only the first occurrence of `appName` is replaced, wherever it stands, and
   * the text around it is kept. Without an occurrence (`IndexOf` finds none) the
   * path is returned as it is.
   * `runtimeName` is taken literally (it is assumed to hold no `$` pattern).
   */
  function RuntimeFile(file: Path, appName: string, runtimeName: string): (r: Path)
    ensures forall i: nat :: FirstAt(file, appName, i) ==> r == file[..i] + runtimeName + file[i + |appName|..]
    ensures IndexOf(file, appName, 0).None? ==> r == file
  {
    match IndexOf(file, appName, 0)
    case None => file
    case Some(i) => file[..i] + runtimeName + file[i + |appName|..]
  }

  /** A path that starts with the app directory name is mirrored into the runtime one and back. */
  lemma {:induction false} MirrorRoundTrip(appName: string, runtimeName: string, rest: string)
    ensures RuntimeFile(appName + rest, appName, runtimeName) == runtimeName + rest
    ensures RuntimeFile(runtimeName + rest, runtimeName, appName) == appName + rest
  {
    var file := appName + rest;
    assert OccursAt(file, appName, 0) by { assert file[0..|appName|] == appName; }
    assert IndexOf(file, appName, 0) == Some(0);
    assert file[|appName|..] == rest;
    var mirror := runtimeName + rest;
    assert OccursAt(mirror, runtimeName, 0) by { assert mirror[0..|runtimeName|] == runtimeName; }
    assert IndexOf(mirror, runtimeName, 0) == Some(0);
    assert mirror[|runtimeName|..] == rest;
  }

  /** Where `app` first occurs in `/happy/app/a.js`: inside `happy`. */
  lemma FirstAppInHappy()
    ensures IndexOf("/happy/app/a.js", "app", 0) == Some(2)
  {
    var file := "/happy/app/a.js";
    assert !OccursAt(file, "app", 0) by { assert file[0..3][0] == '/'; }
    assert !OccursAt(file, "app", 1) by { assert file[1..4][0] == 'h'; }
    assert OccursAt(file, "app", 2) by { assert file[2..5] == "app"; }
    assert IndexOf(file, "app", 0) == IndexOf(file, "app", 1) == IndexOf(file, "app", 2);
  }

  /**
   * On the absolute paths that the tree walk produces, the first occurrence may lie in
   * a directory above the app directory: here it is inside `happy`.
   */
  lemma RuntimeFileCanRewriteAncestor()
    ensures RuntimeFile("/happy/app/a.js", "app", "runtime") == "/hruntimey/app/a.js"
  {
    var file := "/happy/app/a.js";
    FirstAppInHappy();
    var head, tail := file[..2], file[5..];
    assert head == "/h" && tail == "y/app/a.js";
    assert head + "runtime" + tail == "/hruntimey/app/a.js";
  }


}
