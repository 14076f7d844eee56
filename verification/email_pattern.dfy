/**
 The contact form's email check: `RegExp.prototype.test` with the pattern
 `\S+@\S+\.\S+` and no anchors, so it succeeds when SOME substring of the
 value matches, not only when the whole value does.
 */
module EmailPattern {
  import opened Text

  /** `s[lo..hi]` is a non-empty run of non-white-space characters: a match of `\S+`. */
  predicate NonWsRun(s: string, lo: int, hi: int) {
    0 <= lo < hi <= |s| && forall k :: lo <= k < hi ==> !IsWs(s[k])
  }

  /**
   The pattern matches `s[a..e]`: `\S+` over `s[a..b]`, the '@' at `b`,
   `\S+` over `s[b + 1..c]`, the '.' at `c` and `\S+` over `s[c + 1..e]`.
   */
  ghost predicate MatchesAt(s: string, a: int, b: int, c: int, e: int) {
    && NonWsRun(s, a, b)
    && b < |s| && s[b] == '@'
    && NonWsRun(s, b + 1, c)
    && c < |s| && s[c] == '.'
    && NonWsRun(s, c + 1, e)
  }

  /** The unanchored test: some substring of `s` matches the pattern. */
  ghost predicate PatternFound(s: string) {
    exists a, b, c, e :: MatchesAt(s, a, b, c, e)
  }

  /**
   An '@' at `b` and a '.' at `c` that a match can hang on: a non-white-space
   character just before the '@', only non-white-space characters (at least
   one) strictly between them, and a non-white-space character just after
   the '.'.
   */
  predicate Anchors(s: string, b: int, c: int) {
    && 1 <= b && b + 1 < c && c + 1 < |s|
    && s[b] == '@' && !IsWs(s[b - 1])
    && s[c] == '.' && !IsWs(s[c + 1])
    && forall k :: b < k < c ==> !IsWs(s[k])
  }

  /** The executable form of the test: look for an '@' and a '.' that anchor a match. */
  predicate LooksLikeEmail(s: string) {
    exists b, c | 0 <= b < |s| && b < c < |s| :: Anchors(s, b, c)
  }

  /** Anchors are exactly what a match needs: the decision agrees with the pattern. */
  lemma LooksLikeEmailIffFound(s: string)
    ensures LooksLikeEmail(s) <==> PatternFound(s)
  {
    if LooksLikeEmail(s) {
      var b, c :| 0 <= b < |s| && b < c < |s| && Anchors(s, b, c);
      assert MatchesAt(s, b - 1, b, c, c + 2);
    }
    if PatternFound(s) {
      var a, b, c, e :| MatchesAt(s, a, b, c, e);
      assert Anchors(s, b, c);
    }
  }

  /**
   Because the test is unanchored, text around a matching value never makes
   it fail: `"x y@b.c z"` passes as well as `"y@b.c"`.
   */
  lemma FoundInContext(pre: string, s: string, post: string)
    requires PatternFound(s)
    ensures PatternFound(pre + s + post)
  {
    var a, b, c, e :| MatchesAt(s, a, b, c, e);
    var t := pre + s + post;
    var n := |pre|;
    assert forall k :: 0 <= k < |s| ==> t[n + k] == s[k];
    RunShifts(s, t, n, a, b);
    RunShifts(s, t, n, b + 1, c);
    RunShifts(s, t, n, c + 1, e);
    assert t[n + b] == '@' && t[n + c] == '.';
    assert MatchesAt(t, n + a, n + b, n + c, n + e);
  }

  /** A run of `s` stays a run where `s` is copied into `t` at offset `n`. */
  lemma RunShifts(s: string, t: string, n: nat, lo: int, hi: int)
    requires n + |s| <= |t|
    requires forall k :: 0 <= k < |s| ==> t[n + k] == s[k]
    requires NonWsRun(s, lo, hi)
    ensures NonWsRun(t, n + lo, n + hi)
  {
    forall k | n + lo <= k < n + hi ensures !IsWs(t[k]) {
      assert t[k] == s[k - n];
    }
  }

  /** A value without an '@' never passes. */
  lemma NoAtNoMatch(s: string)
    requires forall i :: 0 <= i < |s| ==> s[i] != '@'
    ensures !PatternFound(s)
  {
  }
}
