/** How the pipeline names documents: the correlation name with the
    extension removed (the regular expression `/\.[^/.]+$/` replaced by ""),
    and the base name of an archive entry (the text after the last '/'). */
module Naming {
  import opened Text

  /** Position `i` of `s` starts a match of `\.[^/.]+$`: a dot followed by at
      least one character, none of which is '/' or '.', up to the end. */
  predicate ExtensionAt(s: string, i: int) {
    0 <= i < |s| - 1 && s[i] == '.' && forall j | i < j < |s| :: s[j] != '/' && s[j] != '.'
  }

  /** `name.replace(/\.[^/.]+$/, "")` */
  function StripExtension(s: string): (r: string)
    ensures IsPrefix(r, s)
    ensures forall i | ExtensionAt(s, i) :: r == s[..i]
    ensures (forall i | 0 <= i < |s| :: !ExtensionAt(s, i)) ==> r == s
  {
    var d := LastIndexOf(s, '.');
    if 0 <= d < |s| - 1 && '/' !in s[d + 1..] then
      assert ExtensionAt(s, d) by {
        forall j | d < j < |s| ensures s[j] != '/' { assert s[j] in s[d + 1..]; }
      }
      s[..d]
    else s
  }

  /** The pattern can match at most one position, so the replacement is
      determined: only the last dot can start a match. */
  lemma ExtensionAtUnique(s: string, i: int, j: int)
    requires ExtensionAt(s, i) && ExtensionAt(s, j)
    ensures i == j
  {
  }

  /** Stripping removes a non-empty suffix exactly when one matches: the
      result is shorter than the input if and only if the name ends in a
      `.ext` with a non-empty `ext` free of '/' and '.'. */
  lemma StripShortensIff(s: string)
    ensures |StripExtension(s)| < |s| <==> exists i :: ExtensionAt(s, i)
  {
    if |StripExtension(s)| < |s| {
      var d := LastIndexOf(s, '.');
      forall j | d < j < |s| ensures s[j] != '/' {
        assert s[j] in s[d + 1..];
      }
      assert ExtensionAt(s, d);
    }
  }

  /** Names from the source's own cases: a trailing dot or no dot leaves the
      name alone, a dot inside a directory part is not an extension, only
      the last extension goes. */
  lemma StripExamples()
    ensures StripExtension("KK_001.pdf") == "KK_001"
    ensures StripExtension("a.b.pdf") == "a.b"
    ensures StripExtension("a.") == "a."
    ensures StripExtension("noext") == "noext"
    ensures StripExtension("v1.0/scan") == "v1.0/scan"
  {
    StripPlainName();
    StripLastExtension();
    StripTrailingDot();
    StripDotless();
    StripDotInDirectory();
  }

  lemma StripPlainName()
    ensures StripExtension("KK_001.pdf") == "KK_001"
  {
    assert ExtensionAt("KK_001.pdf", 6);
  }

  lemma StripLastExtension()
    ensures StripExtension("a.b.pdf") == "a.b"
  {
    assert ExtensionAt("a.b.pdf", 3);
  }

  lemma StripTrailingDot()
    ensures StripExtension("a.") == "a."
  {
    assert !ExtensionAt("a.", 1);
  }

  lemma StripDotless()
    ensures StripExtension("noext") == "noext"
  {
    assert '.' !in "noext";
  }

  lemma StripDotInDirectory()
    ensures StripExtension("v1.0/scan") == "v1.0/scan"
  {
    assert "v1.0/scan"[4] == '/';
  }

  /** `name.split('/')` and its last part. */
  function BaseName(path: string): (r: string)
    ensures '/' !in r
    ensures EndsWith(path, r)
    ensures |r| < |path| ==> path[|path| - |r| - 1] == '/'
  {
    AfterLast(path, '/')
  }

  /** The path is the base name behind a directory prefix that is empty or
      ends in '/'. */
  lemma BaseNameSplitsPath(path: string)
    ensures exists dir :: path == dir + BaseName(path) && (dir == [] || dir[|dir| - 1] == '/')
  {
    var r := BaseName(path);
    var dir := path[..|path| - |r|];
    assert path == dir + r;
  }

  /** A name without '/' is its own base name. */
  lemma BaseNameOfPlainName(n: string)
    requires '/' !in n
    ensures BaseName(n) == n
  {
    var r := BaseName(n);
  }

  /** The base name of `dir/n`, for `n` without '/', is `n`. */
  lemma BaseNameAfterSlash(dir: string, n: string)
    requires '/' !in n
    ensures BaseName(dir + "/" + n) == n
  {
    var s := dir + "/" + n;
    var r := BaseName(s);
    assert s[|s| - |n|..] == n;
    assert s[|s| - |r|..] == r;
    assert s[|s| - |n| - 1] == '/';
    assert forall k | |s| - |n| <= k < |s| :: s[k] == n[k - (|s| - |n|)];
    assert forall k | |s| - |r| <= k < |s| :: s[k] == r[k - (|s| - |r|)];
    assert |r| == |n|;
  }
}
