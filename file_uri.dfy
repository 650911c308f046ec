/** `toFileUri` (build/lib/util.js, lines 119-125): a file-system path as a `file://` URI. */
module FileUri {
  import opened Strings

  /** Line terminators, which `.` in a JavaScript regular expression does not match. */
  predicate IsLineTerminator(c: char) {
    c == '\n' || c == '\r' || c == '\U{2028}' || c == '\U{2029}'
  }

  /**
   * `/^([a-z])\:(.*)$/i` matches: an ASCII letter of either case, a colon,
   * and a rest on one line (without the `m` flag `$` is the end of input).
   */
  predicate HasDriveLetter(p: string) {
    |p| >= 2 && IsAsciiLetter(p[0]) && p[1] == ':' &&
    forall k :: 2 <= k < |p| ==> !IsLineTerminator(p[k])
  }

  function ToFileUri(p: string): (uri: string)
    ensures StartsWith(uri, "file://") && '\\' !in uri
    ensures HasDriveLetter(p) ==>
      |uri| == |p| + 8 && uri[7] == '/' && 'A' <= uri[8] <= 'Z' &&
      LowerAscii(uri[8]) == LowerAscii(p[0]) && uri[9..] == ForwardSlashes(p[1..])
    ensures !HasDriveLetter(p) ==> uri[7..] == ForwardSlashes(p)
  {
    var path := if HasDriveLetter(p) then "/" + [UpperAscii(p[0])] + ":" + p[2..] else p;
    var uri := "file://" + ForwardSlashes(path);
    ForwardSlashesHasNoBackslash(path);
    assert '\\' !in uri;
    if HasDriveLetter(p) then
      var head := "/" + [UpperAscii(p[0])];
      assert path == head + p[1..];
      ForwardSlashesAppend(head, p[1..]);
      assert ForwardSlashes(head) == head;
      assert uri == "file://" + head + ForwardSlashes(p[1..]);
      uri
    else
      uri
  }

  /** For a path without backslashes the URI carries the path itself (with its drive letter upper-cased). */
  lemma ToFileUriKeepsPath(p: string)
    requires '\\' !in p
    ensures !HasDriveLetter(p) ==> ToFileUri(p) == "file://" + p
    ensures HasDriveLetter(p) ==> ToFileUri(p) == "file:///" + [UpperAscii(p[0])] + p[1..]
  {
    var uri := ToFileUri(p);
    if HasDriveLetter(p) {
      var q := p[1..];
      assert '\\' !in q by {
        forall k | 0 <= k < |q| ensures q[k] != '\\' { assert q[k] == p[k + 1]; }
      }
      ForwardSlashesKeeps(q);
      assert uri[..7] == "file://";
      assert uri == uri[..7] + [uri[7], uri[8]] + uri[9..];
    } else {
      ForwardSlashesKeeps(p);
      assert uri == uri[..7] + uri[7..];
    }
  }

  /** The URI depends only on the forward-slash form of the path. */
  lemma ToFileUriIgnoresSeparatorStyle(p: string)
    ensures ToFileUri(ForwardSlashes(p)) == ToFileUri(p)
  {
    var q := ForwardSlashes(p);
    SeparatorsKeepDriveLetter(p);
    if HasDriveLetter(p) {
      DrivePathIgnoresSeparatorStyle(p);
    } else {
      assert ToFileUri(q) == "file://" + ForwardSlashes(q);
    }
  }

  lemma SeparatorsKeepDriveLetter(p: string)
    ensures HasDriveLetter(ForwardSlashes(p)) == HasDriveLetter(p)
  {
    var q := ForwardSlashes(p);
    ForwardSlashesAt(p);
    if |p| >= 2 {
      assert q[0] == p[0] || (p[0] == '\\' && q[0] == '/');
      assert q[1] == ':' <==> p[1] == ':';
      assert forall k :: 2 <= k < |p| ==> (IsLineTerminator(q[k]) <==> IsLineTerminator(p[k]));
    }
  }

  lemma DrivePathIgnoresSeparatorStyle(p: string)
    requires HasDriveLetter(p)
    ensures var q := ForwardSlashes(p);
      ForwardSlashes("/" + [UpperAscii(q[0])] + ":" + q[2..]) ==
      ForwardSlashes("/" + [UpperAscii(p[0])] + ":" + p[2..])
  {
    var q := ForwardSlashes(p);
    var path1 := "/" + [UpperAscii(q[0])] + ":" + q[2..];
    var path2 := "/" + [UpperAscii(p[0])] + ":" + p[2..];
    ForwardSlashesAt(p);
    ForwardSlashesAt(path1);
    ForwardSlashesAt(path2);
    forall k | 0 <= k < |path1|
      ensures ForwardSlashes(path1)[k] == ForwardSlashes(path2)[k]
    {
      if k >= 3 {
        assert path1[k] == q[k - 1] && path2[k] == p[k - 1];
      }
    }
  }

  /** Drive letters are case-insensitive: `c:` and `C:` give the same URI. */
  lemma ToFileUriDriveCaseInsensitive(p: string, q: string)
    requires HasDriveLetter(p) && |q| == |p| && q[1..] == p[1..]
    requires IsAsciiLetter(q[0]) && LowerAscii(q[0]) == LowerAscii(p[0])
    ensures ToFileUri(q) == ToFileUri(p)
  {
    assert HasDriveLetter(q) by {
      forall k | 2 <= k < |q| ensures !IsLineTerminator(q[k]) { assert q[k] == q[1..][k - 1]; }
    }
    assert UpperAscii(q[0]) == UpperAscii(p[0]);
    assert q[2..] == p[2..] by { assert q[2..] == q[1..][1..]; }
  }
}
