/** Character and string helpers shared by the path and rule helpers of util.js. */
module Strings {

  predicate IsDigit(c: char) {
    '0' <= c <= '9'
  }

  predicate IsAsciiLetter(c: char) {
    'a' <= c <= 'z' || 'A' <= c <= 'Z'
  }

  /** `String.prototype.toUpperCase` restricted to one ASCII letter. */
  function UpperAscii(c: char): (u: char)
    ensures 'a' <= c <= 'z' ==> 'A' <= u <= 'Z' && u as int == c as int - 32
    ensures !('a' <= c <= 'z') ==> u == c
  {
    if 'a' <= c <= 'z' then (c as int - 32) as char else c
  }

  /** ASCII case folding, as a regular expression with the `i` flag and no `u` flag compares. */
  function LowerAscii(c: char): (l: char)
    ensures 'A' <= c <= 'Z' ==> 'a' <= l <= 'z' && l as int == c as int + 32
    ensures !('A' <= c <= 'Z') ==> l == c
  {
    if 'A' <= c <= 'Z' then (c as int + 32) as char else c
  }

  predicate StartsWith(s: string, prefix: string) {
    |prefix| <= |s| && s[..|prefix|] == prefix
  }

  /** True when `s` ends with `suffix`, comparing ASCII letters without regard to case. */
  predicate EndsWithIgnoringCase(s: string, suffix: string) {
    |suffix| <= |s| &&
    forall k :: 0 <= k < |suffix| ==> LowerAscii(s[|s| - |suffix| + k]) == LowerAscii(suffix[k])
  }

  /** `parts.join(sep)`. */
  function Join(parts: seq<string>, sep: string): string {
    if parts == [] then ""
    else if |parts| == 1 then parts[0]
    else parts[0] + sep + Join(parts[1..], sep)
  }

  /** `s.replace(/\\/g, '/')`: every backslash becomes a forward slash. */
  function ForwardSlashes(s: string): (r: string)
    ensures |r| == |s|
  {
    if s == [] then []
    else [if s[0] == '\\' then '/' else s[0]] + ForwardSlashes(s[1..])
  }

  /** Position by position, a backslash is replaced by a slash and any other character is kept. */
  lemma {:induction false} ForwardSlashesAt(s: string)
    ensures forall k :: 0 <= k < |s| ==> ForwardSlashes(s)[k] == (if s[k] == '\\' then '/' else s[k])
  {
    if s != [] {
      ForwardSlashesAt(s[1..]);
      assert forall k :: 1 <= k < |s| ==> ForwardSlashes(s)[k] == ForwardSlashes(s[1..])[k - 1];
    }
  }

  lemma {:induction false} ForwardSlashesHasNoBackslash(s: string)
    ensures '\\' !in ForwardSlashes(s)
  {
    if s != [] {
      ForwardSlashesHasNoBackslash(s[1..]);
    }
  }

  /** A path without backslashes is left as it is. */
  lemma {:induction false} ForwardSlashesKeeps(s: string)
    requires '\\' !in s
    ensures ForwardSlashes(s) == s
  {
    if s != [] {
      assert forall c :: c in s[1..] ==> c in s;
      ForwardSlashesKeeps(s[1..]);
    }
  }

  lemma {:induction false} ForwardSlashesAppend(a: string, b: string)
    ensures ForwardSlashes(a + b) == ForwardSlashes(a) + ForwardSlashes(b)
  {
    if a == [] {
      assert a + b == b;
    } else {
      assert (a + b)[0] == a[0] && (a + b)[1..] == a[1..] + b;
      ForwardSlashesAppend(a[1..], b);
    }
  }
}
