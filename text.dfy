/**
 The string operations the indexer relies on: ASCII lower-casing (standing in
 for Go's strings.ToLower), the suffix test strings.HasSuffix, and the prefix
 relation by which the prefix map answers queries.
 */
module Text {

  /** Lower-cases one ASCII upper-case letter; every other character is kept. */
  function LowerChar(c: char): char
  {
    if 'A' <= c <= 'Z' then (c as int + 32) as char else c
  }

  /** Lower-cases a whole string, character by character: the length is
      kept, every ASCII upper-case letter becomes its lower-case letter, no
      upper-case letter is left, and every other character is kept in place. */
  function ToLower(s: string): (t: string)
    ensures |t| == |s|
    ensures forall i :: 0 <= i < |t| ==> !('A' <= t[i] <= 'Z')
    ensures forall i {:trigger t[i]} :: 0 <= i < |s| && !('A' <= s[i] <= 'Z') ==> t[i] == s[i]
    ensures forall i {:trigger t[i]} :: 0 <= i < |s| && 'A' <= s[i] <= 'Z' ==> t[i] as int == s[i] as int + 32
  {
    seq(|s|, i requires 0 <= i < |s| => LowerChar(s[i]))
  }

  /** `p` is a prefix of `s` (every string has the empty prefix). */
  predicate IsPrefix(p: string, s: string)
  {
    |p| <= |s| && s[..|p|] == p
  }

  /** `s` ends with `suffix`: it is some string followed by `suffix`. */
  predicate HasSuffix(s: string, suffix: string): (b: bool)
    ensures b <==> exists front :: s == front + suffix
  {
    var b := |suffix| <= |s| && s[|s| - |suffix|..] == suffix;
    assert forall front :: s == front + suffix ==> |front| == |s| - |suffix| && s[|front|..] == suffix;
    assert b ==> s == s[..|s| - |suffix|] + suffix;
    b
  }

  /** A suffix, character by character: `s` ends with `suffix` exactly when
      each character of `suffix` is found at the same distance from the end
      of `s`. */
  lemma SuffixChars(s: string, suffix: string)
    ensures HasSuffix(s, suffix) <==>
      (|suffix| <= |s| && forall k :: 0 <= k < |suffix| ==> s[|s| - |suffix| + k] == suffix[k])
  {
    if |suffix| <= |s| {
      var tail := s[|s| - |suffix|..];
      assert forall k :: 0 <= k < |tail| ==> tail[k] == s[|s| - |suffix| + k];
    }
  }
}
