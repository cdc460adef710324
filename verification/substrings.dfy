/** Python's `needle in haystack` on strings: substring containment. */
module Substrings {

  /** `p` is a prefix of `s`. */
  predicate IsPrefix(p: string, s: string) {
    |p| <= |s| && s[..|p|] == p
  }

  /** Reference definition: `p` occurs in `s` at some offset. */
  ghost predicate IsSubstring(p: string, s: string) {
    exists i :: 0 <= i <= |s| - |p| && IsPrefix(p, s[i..])
  }

  /** Executable containment test, scanning `s` left to right as `p in s` does. */
  function Contains(p: string, s: string): bool
    decreases |s|
  {
    if IsPrefix(p, s) then true
    else if |s| == 0 then false
    else Contains(p, s[1..])
  }

  /** The scan agrees with the reference definition on every input. */
  lemma {:induction false} ContainsIsSubstring(p: string, s: string)
    ensures Contains(p, s) <==> IsSubstring(p, s)
    decreases |s|
  {
    if IsPrefix(p, s) {
      assert s[0..] == s;
      assert IsPrefix(p, s[0..]);
    } else if |s| == 0 {
      assert s[0..] == s;
    } else {
      ContainsIsSubstring(p, s[1..]);
      if IsSubstring(p, s[1..]) {
        var i :| 0 <= i <= |s[1..]| - |p| && IsPrefix(p, s[1..][i..]);
        assert s[1..][i..] == s[i + 1..];
        assert IsPrefix(p, s[i + 1..]);
      }
      if IsSubstring(p, s) {
        var i :| 0 <= i <= |s| - |p| && IsPrefix(p, s[i..]);
        assert i != 0 by { assert s[0..] == s; }
        assert s[1..][i - 1..] == s[i..];
        assert IsPrefix(p, s[1..][i - 1..]);
      }
    }
  }

  /** A string is never longer than a string that contains it. */
  lemma SubstringLength(p: string, s: string)
    requires IsSubstring(p, s)
    ensures |p| <= |s|
  {
  }

  /** Mutual containment only happens between equal strings. */
  lemma SubstringAntisymmetric(p: string, s: string)
    requires IsSubstring(p, s) && IsSubstring(s, p)
    ensures p == s
  {
    SubstringLength(p, s);
    SubstringLength(s, p);
    var i :| 0 <= i <= |s| - |p| && IsPrefix(p, s[i..]);
    assert i == 0 && s[i..] == s;
  }
}
