/**
 * `checkFileExtensions`: which files go through the compiler. Each extension is
 * turned into `new RegExp(ext + "$")` without escaping, so its leading `.` is the
 * regular-expression wildcard and not a literal dot.
 */
module Extensions {

  /** The extension list, in the order the source tries it. */
  const Patterns: seq<string> := [".js", ".jsx", ".es6", ".es"]

  /** Characters the regular-expression `.` does not match. */
  predicate IsLineTerminator(c: char)
  {
    c == '\n' || c == '\r' || c == '\U{2028}' || c == '\U{2029}'
  }

  /** One pattern character against one input character. */
  predicate CharMatches(p: char, c: char)
  {
    if p == '.' then !IsLineTerminator(c) else p == c
  }

  /**
   * `new RegExp(pat + "$").test(s)` for a pattern made of literal characters and `.`:
   * the match has to end where `s` ends, so it can only start at `|s| - |pat|`.
   */
  predicate MatchesAtEnd(s: string, pat: string)
  {
    |pat| <= |s| && forall k :: 0 <= k < |pat| ==> CharMatches(pat[k], s[|s| - |pat| + k])
  }

  /** Some pattern of `patterns` matches `file`. */
  predicate AnyMatches(file: string, patterns: seq<string>)
  {
    exists i :: 0 <= i < |patterns| && MatchesAtEnd(file, patterns[i])
  }

  /** The file is compiled rather than copied. */
  predicate IsTransformable(file: string)
  {
    AnyMatches(file, Patterns)
  }

  /** The loop of `checkFileExtensions`: try every pattern, remember any success. */
  method CheckFileExtensions(file: string) returns (validate: bool)
    ensures validate == IsTransformable(file)
  {
    validate := false;
    var key := 0;
    while key < |Patterns|
      invariant 0 <= key <= |Patterns|
      invariant validate <==> exists i :: 0 <= i < key && MatchesAtEnd(file, Patterns[i])
    {
      if MatchesAtEnd(file, Patterns[key]) {
        validate := true;
      }
      key := key + 1;
    }
  }

  /** A wildcard followed by a literal suffix: the suffix ends `s` after one non-terminator. */
  lemma {:induction false} DotSuffix(s: string, suffix: string)
    requires '.' !in suffix
    ensures MatchesAtEnd(s, "." + suffix) <==>
      |s| > |suffix| && !IsLineTerminator(s[|s| - |suffix| - 1]) && s[|s| - |suffix|..] == suffix
  {
    var pat := "." + suffix;
    var n := |s| - |pat|;
    if MatchesAtEnd(s, pat) {
      assert CharMatches(pat[0], s[n]);
      forall k | 0 <= k < |suffix|
        ensures s[|s| - |suffix|..][k] == suffix[k]
      {
        assert pat[k + 1] == suffix[k] != '.';
        assert CharMatches(pat[k + 1], s[n + k + 1]);
      }
    }
    if |s| > |suffix| && !IsLineTerminator(s[|s| - |suffix| - 1]) && s[|s| - |suffix|..] == suffix {
      forall k | 0 <= k < |pat|
        ensures CharMatches(pat[k], s[n + k])
      {
        if k > 0 {
          assert pat[k] == suffix[k - 1] != '.';
          assert s[|s| - |suffix|..][k - 1] == s[n + k];
        }
      }
    }
  }

  /**
   * The unescaped patterns in plain words: "js" or "es" after at least one character,
   * or "jsx" or "es6" after at least one character, that character not a line terminator.
   * So `fooXjs` and `images` are transformable, and `.js` itself is too.
   */
  lemma TransformableIff(file: string)
    ensures IsTransformable(file) <==>
      (|file| >= 3 && !IsLineTerminator(file[|file| - 3]) &&
        (file[|file| - 2..] == "js" || file[|file| - 2..] == "es")) ||
      (|file| >= 4 && !IsLineTerminator(file[|file| - 4]) &&
        (file[|file| - 3..] == "jsx" || file[|file| - 3..] == "es6"))
  {
    PatternCases(file);
    DotSuffix(file, "js");
    DotSuffix(file, "jsx");
    DotSuffix(file, "es6");
    DotSuffix(file, "es");
  }

  /** `IsTransformable` is the disjunction of the four patterns, each a wildcard and a suffix. */
  lemma PatternCases(file: string)
    ensures IsTransformable(file) <==>
      MatchesAtEnd(file, "." + "js") || MatchesAtEnd(file, "." + "jsx") ||
      MatchesAtEnd(file, "." + "es6") || MatchesAtEnd(file, "." + "es")
  {
    assert Patterns[0] == "." + "js" && Patterns[1] == "." + "jsx";
    assert Patterns[2] == "." + "es6" && Patterns[3] == "." + "es";
    if IsTransformable(file) {
      var i :| 0 <= i < |Patterns| && MatchesAtEnd(file, Patterns[i]);
      assert i == 0 || i == 1 || i == 2 || i == 3;
    } else {
      assert !MatchesAtEnd(file, Patterns[0]) && !MatchesAtEnd(file, Patterns[1]);
      assert !MatchesAtEnd(file, Patterns[2]) && !MatchesAtEnd(file, Patterns[3]);
    }
  }

  lemma AnyMatchesIncluded(file: string, ps: seq<string>, qs: seq<string>)
    requires multiset(ps) <= multiset(qs)
    requires AnyMatches(file, ps)
    ensures AnyMatches(file, qs)
  {
    var i :| 0 <= i < |ps| && MatchesAtEnd(file, ps[i]);
    assert ps[i] in multiset(ps);
    assert ps[i] in qs;
    var j :| 0 <= j < |qs| && qs[j] == ps[i];
  }

  /** The order in which the patterns are tried does not change the answer. */
  lemma OrderIrrelevant(file: string, ps: seq<string>, qs: seq<string>)
    requires multiset(ps) == multiset(qs)
    ensures AnyMatches(file, ps) == AnyMatches(file, qs)
  {
    if AnyMatches(file, ps) { AnyMatchesIncluded(file, ps, qs); }
    if AnyMatches(file, qs) { AnyMatchesIncluded(file, qs, ps); }
  }
}
