/** The absolute-URL heuristic `isUrlAbsolute` of src/zsutil.cpp. */
module UrlClassifier {
  import opened Wrappers

  /** The characters of the `special` array: ':', '/' and '?'. */
  predicate IsSpecial(c: char): (r: bool)
    ensures r <==> c in {':', '/', '?'}
  {
    c == ':' || c == '/' || c == '?'
  }

  /** `url.find_first_of(":/?")`: the first special index, or None for npos. */
  function FindFirstSpecial(s: string): (r: Option<nat>)
    ensures r.None? ==> forall i :: 0 <= i < |s| ==> !IsSpecial(s[i])
    ensures r.Some? ==> r.value < |s| && IsSpecial(s[r.value])
    ensures r.Some? ==> forall i :: 0 <= i < r.value ==> !IsSpecial(s[i])
  {
    if s == [] then None
    else if IsSpecial(s[0]) then Some(0)
    else match FindFirstSpecial(s[1..])
      case None => None
      case Some(k) => Some(k + 1)
  }

  /**
   * True iff the first of ':', '/', '?' exists, is not at position 0 and
   * is a ':'.
   */
  function IsUrlAbsolute(url: string): (r: bool)
    ensures r <==> exists i :: 0 < i < |url| && url[i] == ':' &&
                             forall j :: 0 <= j < i ==> !IsSpecial(url[j])
  {
    match FindFirstSpecial(url)
    case None => false
    case Some(firstSpecial) =>
      if firstSpecial <= 0 then false
      else url[firstSpecial] == ':'
  }

  /** The cases that make `isUrlAbsolute` false. */
  lemma NotAbsoluteCases(url: string)
    ensures url == [] ==> !IsUrlAbsolute(url)
    ensures (forall i :: 0 <= i < |url| ==> !IsSpecial(url[i])) ==> !IsUrlAbsolute(url)
    ensures |url| > 0 && IsSpecial(url[0]) ==> !IsUrlAbsolute(url)
    ensures forall i :: (0 <= i < |url| && url[i] in "/?" &&
                         forall j :: 0 <= j < i ==> url[j] != ':') ==> !IsUrlAbsolute(url)
  {
  }

  /** A scheme-like head followed by ':' makes the URL absolute. */
  lemma AbsoluteHttp()
    ensures IsUrlAbsolute("http://example.com")
  {
    var u := "http://example.com";
    assert u[4] == ':';
    assert forall j :: 0 <= j < 4 ==> !IsSpecial(u[j]);
  }

  /** A leading '/' makes the URL relative. */
  lemma RelativeLeadingSlash()
    ensures !IsUrlAbsolute("/a/b/c")
  {
    NotAbsoluteCases("/a/b/c");
  }

  /** A '/' before any ':' makes the URL relative. */
  lemma RelativePath()
    ensures !IsUrlAbsolute("relative/path")
  {
    var u := "relative/path";
    assert u[8] == '/';
    assert forall j :: 0 <= j < 8 ==> u[j] != ':';
    NotAbsoluteCases(u);
  }

  /** A ':' at position 0 does not count. */
  lemma RelativeLeadingColon()
    ensures !IsUrlAbsolute(":weird")
  {
    NotAbsoluteCases(":weird");
  }
}
