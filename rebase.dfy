/**
 * `rebase` (build/lib/util.js, lines 279-284): the directory part of a file
 * path loses its first `count` components and is re-joined with the
 * platform's separator (`path.sep`, a parameter here).
 */
module Rebase {
  import opened Strings

  predicate IsSeparator(c: char) {
    c == '/' || c == '\\'
  }

  predicate HasNoSeparator(s: string) {
    forall k :: 0 <= k < |s| ==> !IsSeparator(s[k])
  }

  /** Position of the first separator in `s`, or `|s|` when there is none. */
  function IndexOfSeparator(s: string): (k: nat)
    ensures k <= |s|
    ensures k < |s| ==> IsSeparator(s[k])
  {
    if s == [] || IsSeparator(s[0]) then 0 else 1 + IndexOfSeparator(s[1..])
  }

  /** No separator comes before the one found. */
  lemma {:induction false} IndexOfSeparatorFirst(s: string)
    ensures forall j :: 0 <= j < IndexOfSeparator(s) ==> !IsSeparator(s[j])
  {
    if s != [] && !IsSeparator(s[0]) {
      IndexOfSeparatorFirst(s[1..]);
      assert forall j :: 1 <= j < |s| ==> s[j] == s[1..][j - 1];
    }
  }

  /** A position with no separator before it and a separator (or the end) at it is the one found. */
  lemma {:induction false} IndexOfSeparatorExact(s: string, n: nat)
    requires n <= |s| && (n < |s| ==> IsSeparator(s[n]))
    requires forall j :: 0 <= j < n ==> !IsSeparator(s[j])
    ensures IndexOfSeparator(s) == n
  {
    if n > 0 {
      assert forall j :: 0 <= j < n - 1 ==> s[1..][j] == s[j + 1];
      IndexOfSeparatorExact(s[1..], n - 1);
    }
  }

  /** `s.split(/[\/\\]/)`. */
  function SplitPath(s: string): (parts: seq<string>)
    ensures |parts| >= 1
    decreases |s|
  {
    var k := IndexOfSeparator(s);
    if k == |s| then [s] else [s[..k]] + SplitPath(s[k + 1..])
  }

  /** No component of a split path holds a separator. */
  lemma {:induction false} SplitPathParts(s: string)
    ensures forall k :: 0 <= k < |SplitPath(s)| ==> HasNoSeparator(SplitPath(s)[k])
    decreases |s|
  {
    var k := IndexOfSeparator(s);
    IndexOfSeparatorFirst(s);
    assert HasNoSeparator(s[..k]);
    if k < |s| {
      SplitPathParts(s[k + 1..]);
    }
  }

  /** `s.slice(count)` for an integer `count`: a negative count keeps the last `-count` elements. */
  function SliceFrom<T>(s: seq<T>, count: int): (r: seq<T>)
    ensures count >= 0 ==> r == s[if count <= |s| then count else |s|..]
    ensures count < 0 ==> r == s[if |s| + count >= 0 then |s| + count else 0..]
  {
    var start := if count < 0 then (if |s| + count < 0 then 0 else |s| + count)
                 else (if count > |s| then |s| else count);
    s[start..]
  }

  /** The `dirname` that `rebase(count)` gives a file whose `dirname` is `dirname`. */
  function Rebase(dirname: string, count: int, sep: string): (r: string)
    ensures dirname == "" ==> r == ""
    ensures count >= |SplitPath(dirname)| ==> r == ""
  {
    var parts := if dirname == "" then [] else SplitPath(dirname);
    Join(SliceFrom(parts, count), sep)
  }

  /** Splitting and re-joining with `/` only turns backslashes into slashes. */
  lemma {:induction false} JoinSplitPath(s: string)
    ensures Join(SplitPath(s), "/") == ForwardSlashes(s)
    decreases |s|
  {
    var k := IndexOfSeparator(s);
    IndexOfSeparatorFirst(s);
    if k == |s| {
      assert HasNoSeparator(s);
      NoSeparatorUnchanged(s);
    } else {
      var rest := s[k + 1..];
      var parts := SplitPath(s);
      assert parts == [s[..k]] + SplitPath(rest);
      assert parts[1..] == SplitPath(rest);
      JoinSplitPath(rest);
      assert Join(parts, "/") == s[..k] + "/" + ForwardSlashes(rest);
      SeparatorSplit(s, k);
    }
  }

  /** Up to the first separator the text is kept, and the separator becomes `/`. */
  lemma {:induction false} SeparatorSplit(s: string, k: nat)
    requires k < |s| && IsSeparator(s[k])
    requires forall j :: 0 <= j < k ==> !IsSeparator(s[j])
    ensures ForwardSlashes(s) == s[..k] + "/" + ForwardSlashes(s[k + 1..])
  {
    if k == 0 {
      assert ForwardSlashes(s) == "/" + ForwardSlashes(s[1..]);
    } else {
      var t := s[1..];
      assert forall j :: 0 <= j < k - 1 ==> t[j] == s[j + 1];
      SeparatorSplit(t, k - 1);
      assert t[k..] == s[k + 1..];
      assert s[..k] == [s[0]] + t[..k - 1];
    }
  }

  lemma NoSeparatorUnchanged(s: string)
    requires HasNoSeparator(s)
    ensures ForwardSlashes(s) == s
  {
    assert '\\' !in s by {
      forall k | 0 <= k < |s| ensures s[k] != '\\' { }
    }
    ForwardSlashesKeeps(s);
  }

  /** Joining components without separators and splitting again gives the components back. */
  lemma {:induction false} SplitJoinPath(parts: seq<string>, sep: char)
    requires |parts| >= 1 && IsSeparator(sep)
    requires forall k :: 0 <= k < |parts| ==> HasNoSeparator(parts[k])
    ensures SplitPath(Join(parts, [sep])) == parts
  {
    var first := parts[0];
    var n := |first|;
    if |parts| == 1 {
      IndexOfSeparatorExact(first, n);
      assert first[..n] == first;
    } else {
      var rest := Join(parts[1..], [sep]);
      var s := first + [sep] + rest;
      assert Join(parts, [sep]) == s;
      assert forall j :: 0 <= j < n ==> s[j] == first[j];
      IndexOfSeparatorExact(s, n);
      assert s[..n] == first && s[n + 1..] == rest;
      SplitJoinPath(parts[1..], sep);
      assert parts == [first] + parts[1..];
    }
  }

  /** Joining gives the empty string only for no components or one empty component. */
  lemma JoinEmpty(parts: seq<string>, sep: string)
    requires |sep| > 0
    ensures Join(parts, sep) == "" <==> parts == [] || parts == [""]
  {
    if |parts| > 1 {
      assert |Join(parts, sep)| >= |sep|;
    }
  }

  /** `rebase(0)` with `/` as the separator only normalises backslashes. */
  lemma RebaseZero(dirname: string)
    ensures Rebase(dirname, 0, "/") == ForwardSlashes(dirname)
  {
    if dirname != "" {
      JoinSplitPath(dirname);
    }
  }

  /** Slicing twice from the front is slicing once past both counts. */
  lemma SliceFromTwice<T>(s: seq<T>, m: nat, n: nat)
    ensures SliceFrom(SliceFrom(s, m), n) == SliceFrom(s, m + n)
  {
  }

  /** `rebase` applied to a directory it produced itself sees the components it joined. */
  lemma RebaseOfJoin(kept: seq<string>, n: nat, sep: char)
    requires IsSeparator(sep) && Join(kept, [sep]) != ""
    requires forall k :: 0 <= k < |kept| ==> HasNoSeparator(kept[k])
    ensures Rebase(Join(kept, [sep]), n, [sep]) == Join(SliceFrom(kept, n), [sep])
  {
    JoinEmpty(kept, [sep]);
    SplitJoinPath(kept, sep);
  }

  /** Dropping `m` components and then `n` more is dropping `m + n`. */
  lemma RebaseTwice(dirname: string, m: nat, n: nat, sep: char)
    requires IsSeparator(sep)
    ensures Rebase(Rebase(dirname, m, [sep]), n, [sep]) == Rebase(dirname, m + n, [sep])
  {
    var parts := if dirname == "" then [] else SplitPath(dirname);
    var kept := SliceFrom(parts, m);
    SliceFromTwice(parts, m, n);
    JoinEmpty(kept, [sep]);
    if Join(kept, [sep]) != "" {
      if dirname != "" {
        SplitPathParts(dirname);
      }
      assert forall k :: 0 <= k < |kept| ==> kept[k] == parts[k + m];
      RebaseOfJoin(kept, n, sep);
    }
  }
}
