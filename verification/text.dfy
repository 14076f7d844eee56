/**
 The white-space model shared by `String.prototype.trim` and the regular
 expression class `\S`. In ECMAScript both are defined by the same two
 productions, WhiteSpace and LineTerminator, so one predicate serves both.
 */
module Text {

  /** A WhiteSpace or LineTerminator code point (ECMA-262, sections 12.2 and 12.3). */
  predicate IsWs(c: char) {
    var n := c as int;
    || n == 0x09 || n == 0x0A || n == 0x0B || n == 0x0C || n == 0x0D
    || n == 0x20 || n == 0xA0 || n == 0x1680
    || (0x2000 <= n <= 0x200A)
    || n == 0x2028 || n == 0x2029 || n == 0x202F || n == 0x205F
    || n == 0x3000 || n == 0xFEFF
  }

  /** Every character of `s` is white space (true of the empty string). */
  predicate AllWs(s: string) {
    forall i :: 0 <= i < |s| ==> IsWs(s[i])
  }

  /** `s` with its leading white space removed. */
  function TrimStart(s: string): (r: string)
    ensures |r| <= |s| && r == s[|s| - |r|..]
    ensures forall k :: 0 <= k < |s| - |r| ==> IsWs(s[k])
    ensures r != [] ==> !IsWs(r[0])
  {
    if |s| > 0 && IsWs(s[0]) then TrimStart(s[1..]) else s
  }

  /** `s` with its trailing white space removed. */
  function TrimEnd(s: string): (r: string)
    ensures |r| <= |s| && r == s[..|r|]
    ensures forall k :: |r| <= k < |s| ==> IsWs(s[k])
    ensures r != [] ==> !IsWs(r[|r| - 1])
  {
    if |s| > 0 && IsWs(s[|s| - 1]) then TrimEnd(s[..|s| - 1]) else s
  }

  /**
   `r` is `s[i..i + |r|]` and everything of `s` outside that window is
   white space.
   */
  ghost predicate TrimmedAt(s: string, i: int, r: string) {
    && 0 <= i <= |s| - |r|
    && r == s[i..i + |r|]
    && (forall k :: 0 <= k < i ==> IsWs(s[k]))
    && (forall k :: i + |r| <= k < |s| ==> IsWs(s[k]))
  }

  /**
   `String.prototype.trim`: the contiguous part of `s` left after white
   space is removed from both ends. It is empty exactly when `s` holds
   nothing but white space.
   */
  function Trim(s: string): (r: string)
    ensures exists i :: TrimmedAt(s, i, r)
    ensures r != [] ==> !IsWs(r[0]) && !IsWs(r[|r| - 1])
    ensures r == [] <==> AllWs(s)
  {
    var t := TrimStart(s);
    var r := TrimEnd(t);
    TrimWindow(s, t, r);
    r
  }

  /** The trimmed window and the two white-space margins around it. */
  lemma TrimWindow(s: string, t: string, r: string)
    requires |t| <= |s| && t == s[|s| - |t|..]
    requires forall k :: 0 <= k < |s| - |t| ==> IsWs(s[k])
    requires |r| <= |t| && r == t[..|r|]
    requires forall k :: |r| <= k < |t| ==> IsWs(t[k])
    requires t != [] ==> !IsWs(t[0])
    ensures TrimmedAt(s, |s| - |t|, r)
    ensures r == [] <==> AllWs(s)
  {
    var i := |s| - |t|;
    assert r == s[i..i + |r|] by {
      assert t == s[i..];
      assert r == t[..|r|];
    }
    TrailingMargin(s, t, r);
    if r == [] {
      assert AllWs(t);
      BlankWhenEmpty(s, t);
    } else {
      assert r[0] == t[0] == s[i];
    }
  }

  /** What `TrimEnd` dropped from the tail of `TrimStart(s)` is white space in `s`. */
  lemma TrailingMargin(s: string, t: string, r: string)
    requires |t| <= |s| && t == s[|s| - |t|..]
    requires |r| <= |t| && forall k :: |r| <= k < |t| ==> IsWs(t[k])
    ensures forall k :: |s| - |t| + |r| <= k < |s| ==> IsWs(s[k])
  {
    var i := |s| - |t|;
    forall k | i + |r| <= k < |s| ensures IsWs(s[k]) {
      assert s[k] == t[k - i];
    }
  }

  /** If trimming the tail leaves nothing, every character of `s` is white space. */
  lemma BlankWhenEmpty(s: string, t: string)
    requires |t| <= |s| && t == s[|s| - |t|..]
    requires forall k :: 0 <= k < |s| - |t| ==> IsWs(s[k])
    requires AllWs(t)
    ensures AllWs(s)
  {
    var i := |s| - |t|;
    forall k | 0 <= k < |s| ensures IsWs(s[k]) {
      if k >= i {
        assert s[k] == t[k - i];
      }
    }
  }

  /** The JavaScript condition `!s.trim()`: nothing is left after trimming. */
  predicate Blank(s: string): (r: bool)
    ensures r <==> AllWs(s)
  {
    Trim(s) == []
  }
}
