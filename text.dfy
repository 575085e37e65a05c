/**
 * Text helpers with Python's `str` semantics: code-point ordering (`<=` on str,
 * as used by `sorted`), `str.isspace`, `str.strip`, and the e-mail pattern
 * `^\S+@\S+\.\S+$` as matched by `re.match`.
 */
module Text {

  /** Python's `a <= b` on `str`: lexicographic by code point. */
  predicate StrLe(a: string, b: string)
  {
    |a| == 0 || (|b| > 0 && (a[0] < b[0] || (a[0] == b[0] && StrLe(a[1..], b[1..]))))
  }

  /** Python's `a < b` on `str`. */
  predicate StrLt(a: string, b: string)
  {
    StrLe(a, b) && a != b
  }

  lemma {:induction false} StrLeTotal(a: string, b: string)
    ensures StrLe(a, b) || StrLe(b, a)
  {
    if |a| > 0 && |b| > 0 && a[0] == b[0] {
      StrLeTotal(a[1..], b[1..]);
    }
  }

  lemma {:induction false} StrLeTransitive(a: string, b: string, c: string)
    requires StrLe(a, b) && StrLe(b, c)
    ensures StrLe(a, c)
  {
    if |a| > 0 && a[0] == b[0] && b[0] == c[0] {
      StrLeTransitive(a[1..], b[1..], c[1..]);
    }
  }

  lemma {:induction false} StrLeAntisymmetric(a: string, b: string)
    requires StrLe(a, b) && StrLe(b, a)
    ensures a == b
  {
    if |a| > 0 {
      StrLeAntisymmetric(a[1..], b[1..]);
      assert a == [a[0]] + a[1..] && b == [b[0]] + b[1..];
    }
  }

  /** `str.isspace()` for one character, which is also what `\s` and `str.strip()` use. */
  predicate IsSpace(c: char)
  {
    var n := c as int;
    (0x09 <= n <= 0x0D) || (0x1C <= n <= 0x20) || n == 0x85 || n == 0xA0 || n == 0x1680
    || (0x2000 <= n <= 0x200A) || n == 0x2028 || n == 0x2029 || n == 0x202F || n == 0x205F
    || n == 0x3000
  }

  predicate AllSpace(s: string)
  {
    forall k :: 0 <= k < |s| ==> IsSpace(s[k])
  }

  predicate NoSpace(s: string)
  {
    forall k :: 0 <= k < |s| ==> !IsSpace(s[k])
  }

  /** Index of the first non-whitespace character at or after `k`, or `|s|` when there is none. */
  function SkipSpace(s: string, k: nat): (i: nat)
    requires k <= |s|
    ensures k <= i <= |s|
    ensures i < |s| ==> !IsSpace(s[i])
    ensures forall m :: k <= m < i ==> IsSpace(s[m])
    decreases |s| - k
  {
    if k == |s| || !IsSpace(s[k]) then k else SkipSpace(s, k + 1)
  }

  /** Index just after the last non-whitespace character before `k`, or 0 when there is none. */
  function SkipSpaceBack(s: string, k: nat): (j: nat)
    requires k <= |s|
    ensures j <= k
    ensures 0 < j ==> !IsSpace(s[j - 1])
    ensures forall m :: j <= m < k ==> IsSpace(s[m])
  {
    if k == 0 || !IsSpace(s[k - 1]) then k else SkipSpaceBack(s, k - 1)
  }

  /** `s.lstrip()`: `s` without its leading whitespace. */
  function StripStart(s: string): string
  {
    s[SkipSpace(s, 0)..]
  }

  /** `s.rstrip()`: `s` without its trailing whitespace. */
  function StripEnd(s: string): string
  {
    s[..SkipSpaceBack(s, |s|)]
  }

  /** `s.strip()`: neither starts nor ends with whitespace. */
  function Strip(s: string): (r: string)
    ensures r == [] || (!IsSpace(r[0]) && !IsSpace(r[|r| - 1]))
  {
    StripEnd(StripStart(s))
  }

  lemma SpaceRun(s: string, lo: int, hi: int)
    requires 0 <= lo <= hi <= |s|
    requires forall m :: lo <= m < hi ==> IsSpace(s[m])
    ensures AllSpace(s[lo..hi])
  {
    forall m | 0 <= m < hi - lo ensures IsSpace(s[lo..hi][m]) {
      assert s[lo..hi][m] == s[lo + m];
    }
  }

  /** `s.strip()` is the slice of `s` between a whitespace prefix and a whitespace suffix. */
  lemma StripIsTrimmedSlice(s: string)
    ensures var r := Strip(s);
      exists i :: (0 <= i && i + |r| <= |s| && r == s[i..i + |r|]
        && AllSpace(s[..i]) && AllSpace(s[i + |r|..]))
  {
    var i := SkipSpace(s, 0);
    var t := s[i..];
    var j := SkipSpaceBack(t, |t|);
    forall m | i + j <= m < |s| ensures IsSpace(s[m]) {
      assert s[m] == t[m - i];
    }
    SpaceRun(s, 0, i);
    SpaceRun(s, i + j, |s|);
    assert s[..i] == s[0..i] && s[i + j..] == s[i + j..|s|];
    assert Strip(s) == s[i..i + j];
  }

  /**
   * The regular expression `\S+@\S+\.\S+` matching ALL of `s`: no whitespace, an
   * '@' with at least one character before it, a later '.' with at least one
   * character between it and the '@', and at least one character after the '.'.
   * ('@' and '.' are themselves `\S`, so each `\S+` may contain them.)
   */
  predicate MatchesEmailPattern(s: string)
  {
    NoSpace(s)
    && exists i, j :: 1 <= i && i + 2 <= j && j + 2 <= |s| && s[i] == '@' && s[j] == '.'
  }

  /** Index of the first '@' at or after `k`, or `|s|` when there is none. */
  function FirstAt(s: string, k: nat): (i: nat)
    requires k <= |s|
    ensures k <= i <= |s|
    ensures i < |s| ==> s[i] == '@'
    ensures forall m :: k <= m < i ==> s[m] != '@'
    decreases |s| - k
  {
    if k == |s| || s[k] == '@' then k else FirstAt(s, k + 1)
  }

  /** Whether some '.' sits at an index in [lo, hi). */
  predicate HasDotIn(s: string, lo: int, hi: int)
    requires 0 <= lo && hi <= |s|
  {
    exists j :: lo <= j < hi && s[j] == '.'
  }

  /**
   * `re.match(r'^\S+@\S+\.\S+$', s)` is truthy. Python's `$` also matches just
   * before a final newline, so `s` may carry one trailing '\n'. Decided by a
   * single scan: the earliest usable '@' leaves the most room for the '.'.
   */
  predicate IsEmail(s: string)
  {
    ScanEmail(s)
    || (|s| > 0 && s[|s| - 1] == '\n' && ScanEmail(s[..|s| - 1]))
  }

  predicate ScanEmail(s: string)
  {
    |s| >= 1 && NoSpace(s) &&
    var i := FirstAt(s, 1);
    i + 4 <= |s| && HasDotIn(s, i + 2, |s| - 1)
  }

  /** The scan decides exactly the regular expression. */
  lemma ScanEmailMatchesPattern(s: string)
    ensures ScanEmail(s) <==> MatchesEmailPattern(s)
  {
    if MatchesEmailPattern(s) {
      var i, j :| 1 <= i && i + 2 <= j && j + 2 <= |s| && s[i] == '@' && s[j] == '.';
      var f := FirstAt(s, 1);
      assert f <= i;
      assert HasDotIn(s, f + 2, |s| - 1);
    }
    if ScanEmail(s) {
      var f := FirstAt(s, 1);
      var j :| f + 2 <= j < |s| - 1 && s[j] == '.';
      assert 1 <= f && f + 2 <= j && j + 2 <= |s| && s[f] == '@' && s[j] == '.';
    }
  }

  /** `is_email` accepts exactly the strings the pattern matches, optionally followed by one '\n'. */
  lemma IsEmailIff(s: string)
    ensures IsEmail(s) <==>
      MatchesEmailPattern(s) || (|s| > 0 && s[|s| - 1] == '\n' && MatchesEmailPattern(s[..|s| - 1]))
  {
    ScanEmailMatchesPattern(s);
    if |s| > 0 {
      ScanEmailMatchesPattern(s[..|s| - 1]);
    }
  }

  /** "a@b.c" is an address, also with one final newline; "a@b", "ab.c", "" and "a @b.c" are not. */
  lemma EmailExamples()
    ensures IsEmail("a@b.c")
    ensures !IsEmail("a@b") && !IsEmail("ab.c") && !IsEmail("")
    ensures IsEmail("a@b.c\n") && !IsEmail("a @b.c")
  {
    assert FirstAt("a@b.c", 1) == 1;
    assert HasDotIn("a@b.c", 3, 4) by { assert "a@b.c"[3] == '.'; }
    assert "a@b.c\n"[..5] == "a@b.c";
    assert !IsSpace("a@b.c"[3]);
    assert IsSpace("a @b.c"[1]);
    assert "a @b.c"[..5] == "a @b.";
    assert IsSpace("a @b."[1]);
    ScanEmailMatchesPattern("a@b");
    ScanEmailMatchesPattern("ab.c");
    assert FirstAt("ab.c", 1) == 4 by {
      assert FirstAt("ab.c", 3) == 4;
    }
  }

  /** `s.lower() == t` for the one-letter cancel token 'c' and the quit token ':q'. */
  predicate IsCancelToken(s: string)
  {
    s == "c" || s == "C"
  }

  predicate IsQuitToken(s: string)
  {
    s == ":q" || s == ":Q"
  }
}
