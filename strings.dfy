/**
 * The JavaScript string operations the two service workers rely on:
 * startsWith / endsWith, indexOf, replace with a string pattern,
 * split(".").pop() and an ASCII toLowerCase.
 */
module Strings {
  import opened Wrappers

  predicate StartsWith(s: string, prefix: string) {
    |prefix| <= |s| && s[..|prefix|] == prefix
  }

  predicate EndsWith(s: string, suffix: string) {
    |suffix| <= |s| && s[|s| - |suffix|..] == suffix
  }

  /** A string that ends with `suffix` ends with its last two characters. */
  lemma EndsWithLastTwo(s: string, suffix: string)
    requires |suffix| >= 2
    ensures EndsWith(s, suffix) ==> s[|s| - 1] == suffix[|suffix| - 1] && s[|s| - 2] == suffix[|suffix| - 2]
  {
    if EndsWith(s, suffix) {
      assert s[|s| - |suffix|..][|suffix| - 1] == s[|s| - 1];
      assert s[|s| - |suffix|..][|suffix| - 2] == s[|s| - 2];
    }
  }

  /** `needle` occurs in `s` starting at index `j`. */
  predicate OccursAt(s: string, needle: string, j: nat) {
    j + |needle| <= |s| && s[j..j + |needle|] == needle
  }

  /** The first index at or after `from` where `needle` occurs, as String.prototype.indexOf. */
  function IndexOfFrom(s: string, needle: string, from: nat): (r: Option<nat>)
    requires from <= |s|
    ensures r.Some? ==> from <= r.value && OccursAt(s, needle, r.value)
    ensures r.Some? ==> forall j :: from <= j < r.value ==> !OccursAt(s, needle, j)
    ensures r.None? ==> forall j :: from <= j <= |s| ==> !OccursAt(s, needle, j)
    decreases |s| - from
  {
    if OccursAt(s, needle, from) then Some(from)
    else if from == |s| then None
    else IndexOfFrom(s, needle, from + 1)
  }

  function IndexOf(s: string, needle: string): Option<nat> {
    IndexOfFrom(s, needle, 0)
  }

  /** The last index of character `c` in `s`, or -1, as String.prototype.lastIndexOf. */
  function LastIndexOf(s: string, c: char): (k: int)
    ensures -1 <= k < |s|
    ensures k >= 0 ==> s[k] == c
    ensures forall j :: k < j < |s| ==> s[j] != c
  {
    if s == [] then -1
    else if s[|s| - 1] == c then |s| - 1
    else LastIndexOf(s[..|s| - 1], c)
  }

  /**
   * `s.replace(needle, replacement)` for a string pattern: only the first
   * occurrence is replaced (the replacement holds no `$` patterns here).
   */
  function ReplaceFirst(s: string, needle: string, replacement: string): string {
    match IndexOf(s, needle)
    case None => s
    case Some(i) => s[..i] + replacement + s[i + |needle|..]
  }

  /** Replacing a prefix that the string starts with by "" drops exactly that prefix. */
  lemma ReplaceLeadingPrefix(s: string, prefix: string)
    requires StartsWith(s, prefix)
    ensures ReplaceFirst(s, prefix, "") == s[|prefix|..]
  {
    assert OccursAt(s, prefix, 0);
  }

  /**
   * `s.split(".").pop()`: the text after the last '.', or all of `s` when it
   * holds no '.'.
   */
  function AfterLastDot(s: string): (r: string)
    ensures '.' !in r
    ensures |r| <= |s| && s[|s| - |r|..] == r
    ensures |r| < |s| ==> s[|s| - |r| - 1] == '.'
  {
    if s == [] then []
    else if s[|s| - 1] == '.' then []
    else
      var init := s[..|s| - 1];
      var r := AfterLastDot(init) + [s[|s| - 1]];
      assert s == init + [s[|s| - 1]];
      r
  }

  /** The last segment of `stem + "." + ext` is `ext`, whatever the stem holds. */
  lemma {:induction false} AfterLastDotOfJoin(stem: string, ext: string)
    requires '.' !in ext
    ensures AfterLastDot(stem + "." + ext) == ext
  {
    var s := stem + "." + ext;
    var r := AfterLastDot(s);
    assert s[|s| - |ext| - 1] == '.';
    assert forall j :: |s| - |ext| <= j < |s| ==> s[j] == ext[j - (|s| - |ext|)];
    assert forall j :: |s| - |r| <= j < |s| ==> s[j] == r[j - (|s| - |r|)];
    assert |r| == |ext|;
    assert s[|s| - |ext|..] == ext;
  }

  /** A string without '.' is its own last segment. */
  lemma {:induction false} AfterLastDotNoDot(s: string)
    requires '.' !in s
    ensures AfterLastDot(s) == s
  {
    var r := AfterLastDot(s);
    assert forall j :: |s| - |r| <= j < |s| ==> s[j] == r[j - (|s| - |r|)];
  }

  function LowerChar(c: char): char {
    if 'A' <= c <= 'Z' then (c as int + 32) as char else c
  }

  /** toLowerCase restricted to ASCII letters. */
  function ToLower(s: string): string {
    seq(|s|, i requires 0 <= i < |s| => LowerChar(s[i]))
  }

  predicate IsLineTerminator(c: char) {
    c == '\n' || c == '\r' || c == '\U{2028}' || c == '\U{2029}'
  }

  /** Every character of `s` is matched by the regular-expression `.` (no line terminator). */
  predicate NoLineTerminator(s: string) {
    forall i :: 0 <= i < |s| ==> !IsLineTerminator(s[i])
  }
}
