/**
 * The rule-list parsing of `cleanNodeModules` (build/lib/util.js, lines 135-141):
 * an ignore file's text becomes exclude globs and include globs for node_modules.
 */
module NodeModulesRules {
  import opened Strings

  /** What `String.prototype.trim` removes: JavaScript white space and line terminators. */
  predicate IsJsWhitespace(c: char) {
    c == '\t' || c == '\n' || c == '\U{000B}' || c == '\U{000C}' || c == '\r' || c == ' ' ||
    c == '\U{00A0}' || c == '\U{1680}' || '\U{2000}' <= c <= '\U{200A}' ||
    c == '\U{2028}' || c == '\U{2029}' || c == '\U{202F}' || c == '\U{205F}' ||
    c == '\U{3000}' || c == '\U{FEFF}'
  }

  /** Where the text left by `trim` starts: the first non-white-space position at or after `i`. */
  function TrimStartIndex(s: string, i: nat): (a: nat)
    requires i <= |s|
    ensures i <= a <= |s|
    ensures a == |s| || !IsJsWhitespace(s[a])
    decreases |s| - i
  {
    if i < |s| && IsJsWhitespace(s[i]) then TrimStartIndex(s, i + 1) else i
  }

  /** Where the text left by `trim` ends: just after the last non-white-space position in `s[a..j]`. */
  function TrimEndIndex(s: string, a: nat, j: nat): (b: nat)
    requires a <= j <= |s|
    ensures a <= b <= j
    ensures b == a || !IsJsWhitespace(s[b - 1])
    decreases j
  {
    if a < j && IsJsWhitespace(s[j - 1]) then TrimEndIndex(s, a, j - 1) else j
  }

  /** Everything skipped at the start is white space. */
  lemma {:induction false} TrimStartSkipsWhitespace(s: string, i: nat)
    requires i <= |s|
    ensures forall k :: i <= k < TrimStartIndex(s, i) ==> IsJsWhitespace(s[k])
    decreases |s| - i
  {
    if i < |s| && IsJsWhitespace(s[i]) {
      TrimStartSkipsWhitespace(s, i + 1);
    }
  }

  /** Everything cut at the end is white space. */
  lemma {:induction false} TrimEndSkipsWhitespace(s: string, a: nat, j: nat)
    requires a <= j <= |s|
    ensures forall k :: TrimEndIndex(s, a, j) <= k < j ==> IsJsWhitespace(s[k])
    decreases j
  {
    if a < j && IsJsWhitespace(s[j - 1]) {
      TrimEndSkipsWhitespace(s, a, j - 1);
    }
  }

  /** `r` is `s[a..]` up to white space at both ends, all of which is white space. */
  ghost predicate IsTrimmedSlice(s: string, r: string, a: int) {
    0 <= a <= |s| - |r| && r == s[a..a + |r|] &&
    (forall k :: 0 <= k < a ==> IsJsWhitespace(s[k])) &&
    (forall k :: a + |r| <= k < |s| ==> IsJsWhitespace(s[k]))
  }

  /** Neither end is white space. */
  predicate IsTrimmed(r: string) {
    r == [] || (!IsJsWhitespace(r[0]) && !IsJsWhitespace(r[|r| - 1]))
  }

  /** `line.trim()`. */
  function Trim(s: string): (r: string)
    ensures |r| <= |s| && IsTrimmed(r)
  {
    var a := TrimStartIndex(s, 0);
    var b := TrimEndIndex(s, a, |s|);
    assert b > a ==> s[a..b][0] == s[a] && s[a..b][b - a - 1] == s[b - 1];
    s[a..b]
  }

  /** `trim` removes white space from both ends and nothing else. */
  lemma TrimIsSlice(s: string)
    ensures IsTrimmedSlice(s, Trim(s), TrimStartIndex(s, 0))
  {
    var a := TrimStartIndex(s, 0);
    TrimStartSkipsWhitespace(s, 0);
    TrimEndSkipsWhitespace(s, a, |s|);
  }

  /** Position of the first `\n` in `s`, or `|s|` when there is none. */
  function IndexOfNewline(s: string): (k: nat)
    ensures k <= |s| && '\n' !in s[..k]
    ensures k < |s| ==> s[k] == '\n'
  {
    if s == [] then 0
    else if s[0] == '\n' then 0
    else
      var k := 1 + IndexOfNewline(s[1..]);
      assert s[..k] == [s[0]] + s[1..][..k - 1];
      k
  }

  /** A line that ended at `\r\n` loses its `\r` (it belongs to the separator). */
  function DropCarriageReturn(line: string): string {
    if line != [] && line[|line| - 1] == '\r' then line[..|line| - 1] else line
  }

  /** `text.split(/\r?\n/g)`. */
  function SplitLines(text: string): (lines: seq<string>)
    ensures |lines| >= 1
    ensures forall k :: 0 <= k < |lines| ==> '\n' !in lines[k]
    decreases |text|
  {
    var k := IndexOfNewline(text);
    if k == |text| then [text]
    else [DropCarriageReturn(text[..k])] + SplitLines(text[k + 1..])
  }

  /** Splitting undoes joining with `\n`, for lines without `\n` none of which but the last ends in `\r`. */
  lemma {:induction false} SplitJoinLf(lines: seq<string>)
    requires |lines| >= 1
    requires forall k :: 0 <= k < |lines| ==> '\n' !in lines[k]
    requires forall k :: 0 <= k < |lines| - 1 ==> lines[k] == [] || lines[k][|lines[k]| - 1] != '\r'
    ensures SplitLines(Join(lines, "\n")) == lines
  {
    if |lines| > 1 {
      SplitLinesCons(lines[0], Join(lines[1..], "\n"));
      SplitJoinLf(lines[1..]);
      assert lines == [lines[0]] + lines[1..];
    }
  }

  /** Splitting undoes joining with `\r\n`, for lines without `\n`. */
  lemma {:induction false} SplitJoinCrLf(lines: seq<string>)
    requires |lines| >= 1
    requires forall k :: 0 <= k < |lines| ==> '\n' !in lines[k]
    ensures SplitLines(Join(lines, "\r\n")) == lines
  {
    if |lines| > 1 {
      var rest := Join(lines[1..], "\r\n");
      assert Join(lines, "\r\n") == (lines[0] + "\r") + "\n" + rest;
      SplitLinesCons(lines[0] + "\r", rest);
      assert DropCarriageReturn(lines[0] + "\r") == lines[0];
      SplitJoinCrLf(lines[1..]);
      assert lines == [lines[0]] + lines[1..];
    }
  }

  lemma NewlineAfter(line: string, rest: string)
    requires '\n' !in line
    ensures IndexOfNewline(line + "\n" + rest) == |line|
  {
    var s := line + "\n" + rest;
    assert s[|line|] == '\n';
    assert s[..|line|] == line;
  }

  /** Splitting a text that starts with a line and its `\n`. */
  lemma SplitLinesCons(line: string, rest: string)
    requires '\n' !in line
    ensures SplitLines(line + "\n" + rest) == [DropCarriageReturn(line)] + SplitLines(rest)
  {
    var text := line + "\n" + rest;
    NewlineAfter(line, rest);
    assert text[..|line|] == line && text[|line| + 1..] == rest;
  }

  /** A line that is kept as a rule: non-empty and not a `#` comment. */
  predicate IsRule(line: string) {
    line != [] && line[0] != '#'
  }

  /** `.map(line => line.trim()).filter(line => line && !/^#/.test(line))`. */
  function RuleLines(lines: seq<string>): (rules: seq<string>)
    ensures |rules| <= |lines|
    ensures forall k :: 0 <= k < |rules| ==> IsRule(rules[k]) && IsTrimmed(rules[k])
  {
    if lines == [] then []
    else
      var t := Trim(lines[0]);
      (if IsRule(t) then [t] else []) + RuleLines(lines[1..])
  }

  /** A string with no white space at either end is its own trim. */
  lemma TrimmedIsFixed(t: string)
    requires IsTrimmed(t)
    ensures Trim(t) == t
  {
  }

  /** Trimming is idempotent, so a rule line is read the same however often it is trimmed. */
  lemma TrimIdempotent(s: string)
    ensures Trim(Trim(s)) == Trim(s)
  {
    TrimmedIsFixed(Trim(s));
  }

  /** A rule is exactly a trimmed line that is neither empty nor a comment. */
  lemma {:induction false} RuleLinesExact(lines: seq<string>)
    ensures forall r :: r in RuleLines(lines) ==> exists l :: l in lines && Trim(l) == r
    ensures forall l :: l in lines && IsRule(Trim(l)) ==> Trim(l) in RuleLines(lines)
  {
    if lines != [] {
      RuleLinesExact(lines[1..]);
      assert forall l :: l in lines ==> l == lines[0] || l in lines[1..];
    }
  }

  /** Rules are filtered line by line, so the rules of a concatenation are the concatenated rules. */
  lemma {:induction false} RuleLinesAppend(a: seq<string>, b: seq<string>)
    ensures RuleLines(a + b) == RuleLines(a) + RuleLines(b)
  {
    if a != [] {
      assert (a + b)[1..] == a[1..] + b;
      RuleLinesAppend(a[1..], b);
    } else {
      assert a + b == b;
    }
  }

  /** The rules of an ignore file's text. */
  function ParseRules(text: string): (rules: seq<string>)
    ensures forall k :: 0 <= k < |rules| ==> IsRule(rules[k]) && IsTrimmed(rules[k])
  {
    RuleLines(SplitLines(text))
  }

  predicate IsNegated(rule: string) {
    rule != [] && rule[0] == '!'
  }

  /** `rules.filter(line => !/^!/.test(line)).map(line => '!**\/node_modules/' + line)`. */
  function ExcludeGlobs(rules: seq<string>): seq<string> {
    if rules == [] then []
    else (if IsNegated(rules[0]) then [] else ["!**/node_modules/" + rules[0]]) + ExcludeGlobs(rules[1..])
  }

  /** `rules.filter(line => /^!/.test(line)).map(line => '**\/node_modules/' + line.substr(1))`. */
  function IncludeGlobs(rules: seq<string>): seq<string> {
    if rules == [] then []
    else (if IsNegated(rules[0]) then ["**/node_modules/" + rules[0][1..]] else []) + IncludeGlobs(rules[1..])
  }

  /**
   * Every rule lands in exactly one list: a negated rule as an include glob
   * without its `!`, any other as an exclude glob; no glob is in both lists.
   */
  lemma {:induction false} RulesPartition(rules: seq<string>)
    ensures |ExcludeGlobs(rules)| + |IncludeGlobs(rules)| == |rules|
    ensures forall r :: r in rules && IsNegated(r) ==> "**/node_modules/" + r[1..] in IncludeGlobs(rules)
    ensures forall r :: r in rules && !IsNegated(r) ==> "!**/node_modules/" + r in ExcludeGlobs(rules)
    ensures forall g :: g in ExcludeGlobs(rules) ==> IsNegated(g)
    ensures forall g :: g in IncludeGlobs(rules) ==> !IsNegated(g)
  {
    if rules != [] {
      RulesPartition(rules[1..]);
      assert forall r :: r in rules ==> r == rules[0] || r in rules[1..];
    }
  }

  /**
   * The glob lists are built rule by rule, in the rules' order: the globs of
   * concatenated rule lists are the concatenated globs, so a rule that occurs
   * twice gives its glob twice.
   */
  lemma {:induction false} ExcludeGlobsAppend(a: seq<string>, b: seq<string>)
    ensures ExcludeGlobs(a + b) == ExcludeGlobs(a) + ExcludeGlobs(b)
  {
    if a != [] {
      assert (a + b)[1..] == a[1..] + b;
      ExcludeGlobsAppend(a[1..], b);
    } else {
      assert a + b == b;
    }
  }

  lemma {:induction false} IncludeGlobsAppend(a: seq<string>, b: seq<string>)
    ensures IncludeGlobs(a + b) == IncludeGlobs(a) + IncludeGlobs(b)
  {
    if a != [] {
      assert (a + b)[1..] == a[1..] + b;
      IncludeGlobsAppend(a[1..], b);
    } else {
      assert a + b == b;
    }
  }

  /** Three rules, one of them negated and one repeated, give their globs in rule order. */
  lemma GlobsExample()
    ensures ExcludeGlobs(["a", "!b", "a"]) == ["!**/node_modules/a", "!**/node_modules/a"]
    ensures IncludeGlobs(["a", "!b", "a"]) == ["**/node_modules/b"]
  {
    var a: seq<string> := ["a"];
    var b: seq<string> := ["!b"];
    assert a + b + a == ["a", "!b", "a"];
    assert !IsNegated(a[0]) && ExcludeGlobs(a[1..]) == [] && IncludeGlobs(a[1..]) == [];
    assert IsNegated(b[0]) && ExcludeGlobs(b[1..]) == [] && IncludeGlobs(b[1..]) == [];
    assert ExcludeGlobs(a) == ["!**/node_modules/" + a[0]] && ExcludeGlobs(b) == [];
    assert IncludeGlobs(a) == [] && IncludeGlobs(b) == ["**/node_modules/" + b[0][1..]];
    ExcludeGlobsAppend(a, b);
    ExcludeGlobsAppend(a + b, a);
    IncludeGlobsAppend(a, b);
    IncludeGlobsAppend(a + b, a);
    assert "!**/node_modules/" + a[0] == "!**/node_modules/a";
    assert "**/node_modules/" + b[0][1..] == "**/node_modules/b";
    assert ExcludeGlobs(a + b + a) == ExcludeGlobs(a) + ExcludeGlobs(b) + ExcludeGlobs(a);
    assert IncludeGlobs(a + b + a) == IncludeGlobs(a) + IncludeGlobs(b) + IncludeGlobs(a);
  }

  datatype Globs = Globs(excludes: seq<string>, includes: seq<string>)

  /** The two glob lists `cleanNodeModules` filters with, from the rule file's text. */
  function CleanNodeModulesGlobs(ruleText: string): (g: Globs)
    ensures |g.excludes| + |g.includes| == |ParseRules(ruleText)|
  {
    var rules := ParseRules(ruleText);
    RulesPartition(rules);
    Globs(ExcludeGlobs(rules), IncludeGlobs(rules))
  }
}
