/**
 * `versionStringToNumber` (build/lib/util.js, lines 299-306): the leftmost
 * `(\d+)\.(\d+)\.(\d+)` in a string, packed as major * 10000 + minor * 100 + patch.
 */
module Version {
  import opened Wrappers
  import opened Strings

  /** The three digit groups a match captures. */
  datatype Captures = Captures(major: string, minor: string, patch: string)

  predicate AllDigits(s: string) {
    forall k :: 0 <= k < |s| ==> IsDigit(s[k])
  }

  /** The length of the run of digits that starts at `i` (what a greedy `\d*` consumes). */
  function DigitRun(s: string, i: nat): (n: nat)
    requires i <= |s|
    ensures i + n <= |s|
    ensures i + n == |s| || !IsDigit(s[i + n])
    decreases |s| - i
  {
    if i < |s| && IsDigit(s[i]) then 1 + DigitRun(s, i + 1) else 0
  }

  /** Every position the run covers holds a digit. */
  lemma {:induction false} DigitRunCovers(s: string, i: nat)
    requires i <= |s|
    ensures forall k :: i <= k < i + DigitRun(s, i) ==> IsDigit(s[k])
    decreases |s| - i
  {
    if i < |s| && IsDigit(s[i]) {
      DigitRunCovers(s, i + 1);
    }
  }

  lemma DigitRunDigits(s: string, i: nat)
    requires i <= |s|
    ensures AllDigits(s[i..i + DigitRun(s, i)])
  {
    DigitRunCovers(s, i);
    var w := s[i..i + DigitRun(s, i)];
    forall k | 0 <= k < |w|
      ensures IsDigit(w[k])
    {
      assert w[k] == s[i + k];
    }
  }

  /** A maximal digit run is the only one: any digits followed by a non-digit (or the end) are exactly the run. */
  lemma {:induction false} DigitRunExact(s: string, i: nat, n: nat)
    requires i + n <= |s| && forall k :: i <= k < i + n ==> IsDigit(s[k])
    requires i + n == |s| || !IsDigit(s[i + n])
    ensures DigitRun(s, i) == n
    decreases n
  {
    if n > 0 {
      DigitRunExact(s, i + 1, n - 1);
    }
  }

  /** `(\d+)\.` at `i`: the position just after the dot. */
  function GroupAndDot(s: string, i: nat): (j: Option<nat>)
    requires i <= |s|
    ensures j.Some? ==> i + 2 <= j.value <= |s|
  {
    var n := DigitRun(s, i);
    if n == 0 || i + n == |s| || s[i + n] != '.' then None else Some(i + n + 1)
  }

  /** What the regular expression captures when the match attempt starts at `i`. */
  function MatchAt(s: string, i: nat): Option<Captures>
    requires i <= |s|
  {
    match GroupAndDot(s, i)
    case None => None
    case Some(j) => MatchMinor(s, i, j)
  }

  /** The rest of an attempt at `i` whose major group and dot end just before `j`. */
  function MatchMinor(s: string, i: nat, j: nat): Option<Captures>
    requires i + 2 <= j <= |s|
  {
    match GroupAndDot(s, j)
    case None => None
    case Some(k) => MatchPatch(s, i, j, k)
  }

  /** The rest of an attempt whose minor group and dot end just before `k`. */
  function MatchPatch(s: string, i: nat, j: nat, k: nat): Option<Captures>
    requires i + 2 <= j && j + 2 <= k <= |s|
  {
    var c := DigitRun(s, k);
    if c == 0 then None else Some(Captures(s[i..j - 1], s[j..k - 1], s[k..k + c]))
  }

  /**
   * The text at `i` is `x.y.z`, each group non-empty digits, and `z` is not
   * followed by a further digit: the regular expression's greedy reading.
   */
  ghost predicate IsMatch(s: string, i: nat, m: Captures) {
    var x, y, z := m.major, m.minor, m.patch;
    var n := |x| + |y| + |z| + 2;
    |x| > 0 && |y| > 0 && |z| > 0 && AllDigits(x) && AllDigits(y) && AllDigits(z) &&
    i + n <= |s| && s[i..i + n] == x + "." + y + "." + z &&
    (i + n == |s| || !IsDigit(s[i + n]))
  }

  lemma GroupAndDotExact(s: string, i: nat, x: string)
    requires |x| > 0 && AllDigits(x) && i + |x| < |s| && s[i..i + |x|] == x && s[i + |x|] == '.'
    ensures GroupAndDot(s, i) == Some(i + |x| + 1)
  {
    forall k | i <= k < i + |x| ensures IsDigit(s[k]) {
      assert s[k] == x[k - i];
    }
    DigitRunExact(s, i, |x|);
  }

  /** Every capture `MatchAt` reports is a greedy match. */
  lemma MatchAtSound(s: string, i: nat)
    requires i <= |s| && MatchAt(s, i).Some?
    ensures IsMatch(s, i, MatchAt(s, i).value)
  {
    var j := GroupAndDot(s, i).value;
    var k := GroupAndDot(s, j).value;
    var c := DigitRun(s, k);
    MatchAtOfGroups(s, i, j, k, c);
    GroupDigits(s, i, j);
    GroupDigits(s, j, k);
    DigitRunDigits(s, k);
    GroupsAreMatch(s, i, j, k, c);
  }

  /** Three digit groups separated by dots, the last one maximal, form a greedy match. */
  lemma GroupsAreMatch(s: string, i: nat, j: nat, k: nat, c: nat)
    requires i + 2 <= j && j + 2 <= k && k + c <= |s| && c > 0
    requires AllDigits(s[i..j - 1]) && s[j - 1] == '.' && AllDigits(s[j..k - 1]) && s[k - 1] == '.'
    requires AllDigits(s[k..k + c]) && (k + c == |s| || !IsDigit(s[k + c]))
    ensures IsMatch(s, i, Captures(s[i..j - 1], s[j..k - 1], s[k..k + c]))
  {
    var x, y, z := s[i..j - 1], s[j..k - 1], s[k..k + c];
    assert j == i + |x| + 1 && k == j + |y| + 1 && |z| == c;
    assert s[i..i + |x|] == x && s[i + |x|] == '.';
    assert s[j..j + |y|] == y && s[j + |y|] == '.';
    assert s[k..k + |z|] == z && (k + |z| == |s| || !IsDigit(s[k + |z|]));
    PartsAreMatch(s, i, Captures(x, y, z));
  }

  lemma GroupDigits(s: string, i: nat, j: nat)
    requires i <= |s| && GroupAndDot(s, i) == Some(j)
    ensures AllDigits(s[i..j - 1]) && s[j - 1] == '.'
  {
    DigitRunDigits(s, i);
  }

  /** The converse of `IsMatchParts`. */
  lemma PartsAreMatch(s: string, i: nat, m: Captures)
    requires var x, y, z := m.major, m.minor, m.patch;
      var j := i + |x| + 1;
      var k := j + |y| + 1;
      |x| > 0 && |y| > 0 && |z| > 0 && AllDigits(x) && AllDigits(y) && AllDigits(z) &&
      k + |z| <= |s| &&
      s[i..i + |x|] == x && s[i + |x|] == '.' && s[j..j + |y|] == y && s[j + |y|] == '.' &&
      s[k..k + |z|] == z && (k + |z| == |s| || !IsDigit(s[k + |z|]))
    ensures IsMatch(s, i, m)
  {
    var x, y, z := m.major, m.minor, m.patch;
    var j := i + |x| + 1;
    var k := j + |y| + 1;
    assert s[i..k + |z|] == s[i..i + |x|] + [s[i + |x|]] + s[j..j + |y|] + [s[j + |y|]] + s[k..k + |z|];
  }

  /** Every greedy match is the one `MatchAt` reports. */
  lemma MatchAtComplete(s: string, i: nat, m: Captures)
    requires i <= |s| && IsMatch(s, i, m)
    ensures MatchAt(s, i) == Some(m)
  {
    IsMatchParts(s, i, m);
    PartsMatchAt(s, i, m);
  }

  /** The attempt at `i` reads exactly the groups laid out there. */
  lemma PartsMatchAt(s: string, i: nat, m: Captures)
    requires var x, y, z := m.major, m.minor, m.patch;
      var j := i + |x| + 1;
      var k := j + |y| + 1;
      |x| > 0 && |y| > 0 && |z| > 0 && AllDigits(x) && AllDigits(y) && AllDigits(z) &&
      k + |z| <= |s| &&
      s[i..i + |x|] == x && s[i + |x|] == '.' && s[j..j + |y|] == y && s[j + |y|] == '.' &&
      s[k..k + |z|] == z && (k + |z| == |s| || !IsDigit(s[k + |z|]))
    ensures MatchAt(s, i) == Some(m)
  {
    var x, y, z := m.major, m.minor, m.patch;
    var j := i + |x| + 1;
    var k := j + |y| + 1;
    GroupAndDotExact(s, i, x);
    GroupAndDotExact(s, j, y);
    forall t | k <= t < k + |z| ensures IsDigit(s[t]) {
      assert s[t] == z[t - k];
    }
    DigitRunExact(s, k, |z|);
    MatchAtOfGroups(s, i, j, k, |z|);
  }

  /** The pieces of a greedy match, position by position. */
  lemma IsMatchParts(s: string, i: nat, m: Captures)
    requires IsMatch(s, i, m)
    ensures var x, y, z := m.major, m.minor, m.patch;
      var j := i + |x| + 1;
      var k := j + |y| + 1;
      k + |z| <= |s| &&
      s[i..i + |x|] == x && s[i + |x|] == '.' && s[j..j + |y|] == y && s[j + |y|] == '.' &&
      s[k..k + |z|] == z && (k + |z| == |s| || !IsDigit(s[k + |z|]))
  {
    var x, y, z := m.major, m.minor, m.patch;
    var n := |x| + |y| + |z| + 2;
    var w := s[i..i + n];
    assert w[..|x|] == x && w[|x|] == '.';
    assert w[|x| + 1..|x| + 1 + |y|] == y && w[|x| + 1 + |y|] == '.';
    assert w[|x| + |y| + 2..] == z;
  }

  lemma MatchAtOfGroups(s: string, i: nat, j: nat, k: nat, c: nat)
    requires i <= |s| && GroupAndDot(s, i) == Some(j) && GroupAndDot(s, j) == Some(k) && DigitRun(s, k) == c > 0
    ensures MatchAt(s, i) == Some(Captures(s[i..j - 1], s[j..k - 1], s[k..k + c]))
  {
    MatchAtStep(s, i, j);
    MatchMinorStep(s, i, j, k);
    MatchPatchStep(s, i, j, k, c);
  }

  lemma MatchAtStep(s: string, i: nat, j: nat)
    requires i <= |s| && GroupAndDot(s, i) == Some(j)
    ensures MatchAt(s, i) == MatchMinor(s, i, j)
  {
  }

  lemma MatchMinorStep(s: string, i: nat, j: nat, k: nat)
    requires i + 2 <= j <= |s| && GroupAndDot(s, j) == Some(k)
    ensures MatchMinor(s, i, j) == MatchPatch(s, i, j, k)
  {
  }

  lemma MatchPatchStep(s: string, i: nat, j: nat, k: nat, c: nat)
    requires i + 2 <= j && j + 2 <= k <= |s| && DigitRun(s, k) == c > 0
    ensures MatchPatch(s, i, j, k) == Some(Captures(s[i..j - 1], s[j..k - 1], s[k..k + c]))
  {
  }

  /** The result of a match attempt at every start position of `s`. */
  function Matches(s: string): (ms: seq<Option<Captures>>)
    ensures |ms| == |s| + 1
    ensures forall j :: 0 <= j <= |s| ==> ms[j] == MatchAt(s, j)
  {
    seq(|s| + 1, j requires 0 <= j <= |s| => MatchAt(s, j))
  }

  /** The first successful attempt at or after position `i`. */
  function FirstSome(ms: seq<Option<Captures>>, i: nat): (r: Option<(nat, Captures)>)
    requires i <= |ms|
    ensures r.Some? ==> i <= r.value.0 < |ms| && ms[r.value.0] == Some(r.value.1)
    decreases |ms| - i
  {
    if i == |ms| then None
    else match ms[i]
      case Some(m) => Some((i, m))
      case None => FirstSome(ms, i + 1)
  }

  /** The first successful attempt is preceded only by failed ones; no result means every attempt failed. */
  lemma {:induction false} FirstSomeLeftmost(ms: seq<Option<Captures>>, i: nat)
    requires i <= |ms|
    ensures FirstSome(ms, i).Some? ==> forall j :: i <= j < FirstSome(ms, i).value.0 ==> ms[j].None?
    ensures FirstSome(ms, i).None? ==> forall j :: i <= j < |ms| ==> ms[j].None?
    decreases |ms| - i
  {
    if i < |ms| && ms[i].None? {
      FirstSomeLeftmost(ms, i + 1);
    }
  }

  /** Failed attempts before position `k` do not change where the search lands. */
  lemma {:induction false} FirstSomeSkipsFailures(ms: seq<Option<Captures>>, i: nat, k: nat)
    requires i <= k <= |ms|
    requires forall j :: i <= j < k ==> ms[j].None?
    ensures FirstSome(ms, i) == FirstSome(ms, k)
    decreases k - i
  {
    if i < k {
      FirstSomeSkipsFailures(ms, i + 1, k);
    }
  }

  /** The leftmost match at or after `i`: where it starts and what it captures (`String.prototype.match`). */
  function FindFrom(s: string, i: nat): (r: Option<(nat, Captures)>)
    requires i <= |s|
    ensures r.Some? ==> i <= r.value.0 <= |s| && MatchAt(s, r.value.0) == Some(r.value.1)
  {
    FirstSome(Matches(s), i)
  }

  /** The search finds the leftmost match, and fails only when there is none. */
  lemma FindFromLeftmost(s: string, i: nat)
    requires i <= |s|
    ensures FindFrom(s, i).Some? ==> forall j :: i <= j < FindFrom(s, i).value.0 ==> MatchAt(s, j).None?
    ensures FindFrom(s, i).None? ==> forall j :: i <= j <= |s| ==> MatchAt(s, j).None?
  {
    FirstSomeLeftmost(Matches(s), i);
  }

  /** `parseInt(digits, 10)` of a non-empty digit string. */
  function ParseDecimal(ds: string): nat
    requires AllDigits(ds)
  {
    if ds == [] then 0
    else ParseDecimal(ds[..|ds| - 1]) * 10 + (ds[|ds| - 1] as int - '0' as int)
  }

  /** The decimal digits of `n`, without leading zeros. */
  function ShowDecimal(n: nat): (ds: string)
    ensures |ds| > 0 && AllDigits(ds)
  {
    if n < 10 then ['0' + n as char]
    else ShowDecimal(n / 10) + ['0' + (n % 10) as char]
  }

  lemma {:induction false} ParseShow(n: nat)
    ensures ParseDecimal(ShowDecimal(n)) == n
  {
    var ds := ShowDecimal(n);
    assert ds[..|ds| - 1] == if n < 10 then [] else ShowDecimal(n / 10);
    if n >= 10 {
      ParseShow(n / 10);
    }
  }

  function Pack(major: nat, minor: nat, patch: nat): nat {
    major * 10000 + minor * 100 + patch
  }

  function VersionStringToNumber(s: string): (r: Result<nat, string>)
    ensures r.Failure? <==> forall j :: 0 <= j <= |s| ==> MatchAt(s, j).None?
    ensures r.Failure? ==> r.error == "Version string is not properly formatted: " + s
    ensures r.Success? ==> exists i: nat, m: Captures ::
      i <= |s| && IsMatch(s, i, m) && (forall j :: 0 <= j < i ==> MatchAt(s, j).None?) &&
      r.value == Pack(ParseDecimal(m.major), ParseDecimal(m.minor), ParseDecimal(m.patch))
  {
    FindFromLeftmost(s, 0);
    match FindFrom(s, 0)
    case None => Failure("Version string is not properly formatted: " + s)
    case Some((start, m)) =>
      MatchAtSound(s, start);
      Success(Pack(ParseDecimal(m.major), ParseDecimal(m.minor), ParseDecimal(m.patch)))
  }

  /** Conversely, the leftmost match determines the number: its groups, read as decimals, packed. */
  lemma VersionOfLeftmostMatch(s: string, i: nat, m: Captures)
    requires i <= |s| && IsMatch(s, i, m)
    requires forall j :: 0 <= j < i ==> MatchAt(s, j).None?
    ensures VersionStringToNumber(s) == Success(Pack(ParseDecimal(m.major), ParseDecimal(m.minor), ParseDecimal(m.patch)))
  {
    MatchAtComplete(s, i, m);
    FindFromLeftmost(s, 0);
    var f := FindFrom(s, 0);
    assert f.Some?;
    assert f.value.0 == i;
  }

  /** Text around the version does not matter. */
  lemma VersionInText()
    ensures VersionStringToNumber("v1.2.3-beta") == Success(10203)
  {
    var s, m := "v1.2.3-beta", Captures("1", "2", "3");
    assert s[1..6] == m.major + "." + m.minor + "." + m.patch;
    assert IsMatch(s, 1, m);
    assert DigitRun(s, 0) == 0;
    assert MatchAt(s, 0).None?;
    assert ParseDecimal("1") == 1 && ParseDecimal("2") == 2 && ParseDecimal("3") == 3;
    VersionOfLeftmostMatch(s, 1, m);
  }

  /** Leading zeros in a group do not matter. */
  lemma VersionWithLeadingZeros()
    ensures VersionStringToNumber("01.02.03") == Success(10203)
  {
    var s, m := "01.02.03", Captures("01", "02", "03");
    assert s[0..8] == m.major + "." + m.minor + "." + m.patch;
    assert IsMatch(s, 0, m);
    assert ParseDecimal("0") == 0;
    assert ParseDecimal("01") == 1 && ParseDecimal("02") == 2 && ParseDecimal("03") == 3;
    VersionOfLeftmostMatch(s, 0, m);
  }

  /** Reading back a printed version gives its packed number. */
  lemma {:induction false} VersionRoundTrip(major: nat, minor: nat, patch: nat)
    ensures VersionStringToNumber(ShowDecimal(major) + "." + ShowDecimal(minor) + "." + ShowDecimal(patch))
      == Success(Pack(major, minor, patch))
  {
    var m := Captures(ShowDecimal(major), ShowDecimal(minor), ShowDecimal(patch));
    var s := m.major + "." + m.minor + "." + m.patch;
    assert s[0..|s|] == s;
    assert IsMatch(s, 0, m);
    MatchAtComplete(s, 0, m);
    assert FindFrom(s, 0) == Some((0, m));
    ParseShow(major);
    ParseShow(minor);
    ParseShow(patch);
  }

  /** With minor and patch below 100, packed numbers compare as versions do. */
  lemma PackOrdersVersions(a: nat, b: nat, c: nat, a': nat, b': nat, c': nat)
    requires b < 100 && c < 100 && b' < 100 && c' < 100
    ensures Pack(a, b, c) < Pack(a', b', c') <==>
      a < a' || (a == a' && (b < b' || (b == b' && c < c')))
  {
    if a < a' {
      assert a * 10000 + 10000 <= a' * 10000;
    } else if a' < a {
      assert a' * 10000 + 10000 <= a * 10000;
    } else if b < b' {
      assert b * 100 + 100 <= b' * 100;
    } else if b' < b {
      assert b' * 100 + 100 <= b * 100;
    }
  }

  lemma {:induction false} DigitRunShift(p: string, t: string, j: nat)
    requires j <= |t|
    ensures DigitRun(p + t, |p| + j) == DigitRun(t, j)
    decreases |t| - j
  {
    if j < |t| {
      assert (p + t)[|p| + j] == t[j];
      DigitRunShift(p, t, j + 1);
    }
  }

  lemma GroupAndDotShift(p: string, t: string, j: nat)
    requires j <= |t|
    ensures GroupAndDot(p + t, |p| + j) == if GroupAndDot(t, j).None? then None else Some(|p| + GroupAndDot(t, j).value)
  {
    DigitRunShift(p, t, j);
    var n := DigitRun(t, j);
    if j + n < |t| {
      assert (p + t)[|p| + j + n] == t[j + n];
    }
  }

  lemma MatchAtShift(p: string, t: string, i: nat)
    requires i <= |t|
    ensures MatchAt(p + t, |p| + i) == MatchAt(t, i)
  {
    GroupAndDotShift(p, t, i);
    if GroupAndDot(t, i).Some? {
      MatchMinorShift(p, t, i, GroupAndDot(t, i).value);
    }
  }

  lemma MatchMinorShift(p: string, t: string, i: nat, j: nat)
    requires i + 2 <= j <= |t|
    ensures MatchMinor(p + t, |p| + i, |p| + j) == MatchMinor(t, i, j)
  {
    GroupAndDotShift(p, t, j);
    if GroupAndDot(t, j).Some? {
      MatchPatchShift(p, t, i, j, GroupAndDot(t, j).value);
    }
  }

  lemma MatchPatchShift(p: string, t: string, i: nat, j: nat, k: nat)
    requires i + 2 <= j && j + 2 <= k <= |t|
    ensures MatchPatch(p + t, |p| + i, |p| + j, |p| + k) == MatchPatch(t, i, j, k)
  {
    var s := p + t;
    DigitRunShift(p, t, k);
    var c := DigitRun(t, k);
    assert s[|p| + i..|p| + j - 1] == t[i..j - 1];
    assert s[|p| + j..|p| + k - 1] == t[j..k - 1];
    assert s[|p| + k..|p| + k + c] == t[k..k + c];
  }

  function Shifted(r: Option<(nat, Captures)>, offset: nat): Option<(nat, Captures)> {
    match r
    case None => None
    case Some((start, m)) => Some((start + offset, m))
  }

  /** Searching a suffix finds the same attempt, at a position `k` smaller. */
  lemma {:induction false} FirstSomeSuffix(ms: seq<Option<Captures>>, k: nat, j: nat)
    requires k + j <= |ms|
    ensures FirstSome(ms, k + j) == Shifted(FirstSome(ms[k..], j), k)
    decreases |ms| - k - j
  {
    if k + j < |ms| {
      assert ms[k..][j] == ms[k + j];
      FirstSomeSuffix(ms, k, j + 1);
    }
  }

  /** Match attempts inside `t` do not depend on what precedes `t`. */
  lemma MatchesShift(p: string, t: string)
    ensures Matches(p + t)[|p|..] == Matches(t)
  {
    var l, r := Matches(p + t)[|p|..], Matches(t);
    forall j | 0 <= j < |r|
      ensures l[j] == r[j]
    {
      MatchAtShift(p, t, j);
    }
  }

  /**
   * Text without digits in front of a version does not change the number
   * (only the error message, which quotes the whole string).
   */
  lemma VersionIgnoresLeadingText(p: string, t: string)
    requires forall k :: 0 <= k < |p| ==> !IsDigit(p[k])
    ensures VersionStringToNumber(p + t).Failure? == VersionStringToNumber(t).Failure?
    ensures VersionStringToNumber(t).Success? ==> VersionStringToNumber(p + t) == VersionStringToNumber(t)
  {
    var s := p + t;
    var ms := Matches(s);
    forall j | 0 <= j < |p|
      ensures ms[j].None?
    {
      assert s[j] == p[j];
    }
    FirstSomeSkipsFailures(ms, 0, |p|);
    MatchesShift(p, t);
    FirstSomeSuffix(ms, |p|, 0);
  }
}
