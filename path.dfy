/** `pathPrefix` of src/zsutil.cpp: the alphanumeric head of the last path segment. */
module PathClassifier {
  import opened Wrappers

  /** `isalnum` in the "C" locale: ASCII letters and digits. */
  predicate IsAlnum(c: char): (r: bool)
    ensures r <==> 48 <= c as int <= 57 || 65 <= c as int <= 90 || 97 <= c as int <= 122
  {
    'A' <= c <= 'Z' || 'a' <= c <= 'z' || '0' <= c <= '9'
  }

  /** `path.find_last_of('/')`: the last slash index, or None for npos. */
  function FindLastSlash(s: string): (r: Option<nat>)
    ensures r.None? ==> forall i :: 0 <= i < |s| ==> s[i] != '/'
    ensures r.Some? ==> r.value < |s| && s[r.value] == '/'
    ensures r.Some? ==> forall i :: r.value < i < |s| ==> s[i] != '/'
  {
    if s == [] then None
    else if s[|s| - 1] == '/' then Some(|s| - 1)
    else FindLastSlash(s[..|s| - 1])
  }

  /**
   * The part after the last '/', or all of `path` without one: the longest
   * suffix free of '/'.
   */
  function LastSegment(path: string): (segment: string)
    ensures |segment| <= |path| && segment == path[|path| - |segment|..]
    ensures '/' !in segment
    ensures |segment| < |path| ==> path[|path| - |segment| - 1] == '/'
  {
    match FindLastSlash(path)
    case None => path
    case Some(lastSlash) => path[lastSlash + 1..]
  }

  /** `std::distance(begin, std::find_if_not(begin, end, isalnum))`. */
  function AlnumRunLength(s: string): (n: nat)
    ensures n <= |s|
    ensures forall i :: 0 <= i < n ==> IsAlnum(s[i])
    ensures n < |s| ==> !IsAlnum(s[n])
  {
    if s != [] && IsAlnum(s[0]) then 1 + AlnumRunLength(s[1..]) else 0
  }

  /** `s.substr(0, n)` for the alphanumeric run length `n`: the longest all-alphanumeric prefix. */
  function AlnumHead(s: string): (r: string)
    ensures |r| <= |s| && r == s[..|r|]
    ensures forall i :: 0 <= i < |r| ==> IsAlnum(r[i])
    ensures |r| < |s| ==> !IsAlnum(s[|r|])
  {
    s[..AlnumRunLength(s)]
  }

  /**
   * The longest all-alphanumeric prefix of the last segment of `path`.
   */
  function PathPrefix(path: string): (r: string)
    ensures |r| <= |LastSegment(path)| && r == LastSegment(path)[..|r|]
    ensures forall i :: 0 <= i < |r| ==> IsAlnum(r[i])
    ensures |r| < |LastSegment(path)| ==> !IsAlnum(LastSegment(path)[|r|])
    ensures '/' !in r
  {
    AlnumHead(LastSegment(path))
  }

  /** The prefix is empty exactly when the segment is empty or starts badly. */
  lemma PathPrefixEmptyIff(path: string)
    ensures PathPrefix(path) == [] <==>
      LastSegment(path) == [] || !IsAlnum(LastSegment(path)[0])
  {
  }

  /** Without a slash the segment is the whole path. */
  lemma LastSegmentWithoutSlash(path: string)
    requires '/' !in path
    ensures LastSegment(path) == path
  {
  }

  /** The segment is what follows the last slash. */
  lemma LastSegmentAfterSlash(head: string, tail: string)
    requires '/' !in tail
    ensures LastSegment(head + "/" + tail) == tail
  {
    var path := head + "/" + tail;
    assert path[|head|] == '/';
    var r := FindLastSlash(path);
    assert r.Some?;
    assert r.value == |head|;
    assert path[|head| + 1..] == tail;
  }

  /** A path whose only slash is its first character has the rest as its segment. */
  lemma LastSegmentLeadingSlash(path: string)
    requires |path| > 0 && path[0] == '/' && '/' !in path[1..]
    ensures LastSegment(path) == path[1..]
  {
    LastSegmentAfterSlash("", path[1..]);
    assert "" + "/" + path[1..] == path;
  }

  /** The result is the alphanumeric run of the segment up to its first other character. */
  lemma PathPrefixOfSegment(path: string, run: string, c: char, rest: string)
    requires LastSegment(path) == run + [c] + rest
    requires forall i :: 0 <= i < |run| ==> IsAlnum(run[i])
    requires !IsAlnum(c)
    ensures PathPrefix(path) == run
  {
    var r := PathPrefix(path);
    var seg := LastSegment(path);
    assert seg[|run|] == c;
    assert |r| == |run|;
    assert seg[..|run|] == run;
  }

  /** A segment made only of alphanumeric characters is returned whole. */
  lemma PathPrefixOfAlnumSegment(path: string)
    requires forall i :: 0 <= i < |LastSegment(path)| ==> IsAlnum(LastSegment(path)[i])
    ensures PathPrefix(path) == LastSegment(path)
  {
    var seg := LastSegment(path);
    assert seg[..|seg|] == seg;
  }

  /** "foo/bar-123" gives "bar": the run stops at the dash. */
  lemma PathPrefixStopsAtDash()
    ensures PathPrefix("foo/bar-123") == "bar"
  {
    LastSegmentAfterSlash("foo", "bar-123");
    assert "foo" + "/" + "bar-123" == "foo/bar-123";
    assert "bar-123" == "bar" + ['-'] + "123";
    PathPrefixOfSegment("foo/bar-123", "bar", '-', "123");
  }

  /** "noslash" gives "noslash": without a slash the whole string is the segment. */
  lemma PathPrefixWithoutSlash()
    ensures PathPrefix("noslash") == "noslash"
  {
    var b := "noslash";
    assert forall i :: 0 <= i < |b| ==> b[i] != '/' && IsAlnum(b[i]);
    LastSegmentWithoutSlash(b);
    PathPrefixOfAlnumSegment(b);
  }

  /** "/onlyslash" gives "onlyslash": the leading slash is the last one. */
  lemma PathPrefixLeadingSlash()
    ensures PathPrefix("/onlyslash") == "onlyslash"
  {
    var c := "/onlyslash";
    var t := "onlyslash";
    assert c[1..] == t;
    assert forall i :: 0 <= i < |t| ==> t[i] != '/' && IsAlnum(t[i]);
    LastSegmentLeadingSlash(c);
    PathPrefixOfAlnumSegment(c);
  }

  /** "dir/" gives "": the segment after the trailing slash is empty. */
  lemma PathPrefixTrailingSlash()
    ensures PathPrefix("dir/") == ""
  {
    LastSegmentAfterSlash("dir", "");
    assert "dir" + "/" + "" == "dir/";
  }
}
