/**
 * Whitespace trimming of a caller-owned string (`ltrim`, `rtrim`, `trim`
 * in src/zsutil.cpp). The string is passed by reference and edited in
 * place, so it is modelled as an object whose `value` the methods change.
 */
module Trimming {

  /** `std::isspace` in the "C" locale: space, \t, \n, \v, \f and \r. */
  predicate IsSpace(c: char): (r: bool)
    ensures r <==> c as int in {9, 10, 11, 12, 13, 32}
  {
    c == ' ' || '\t' <= c <= '\r'
  }

  /** What is left of `s` after its maximal leading run of whitespace. */
  function TrimLeft(s: string): (r: string)
    ensures |r| <= |s| && r == s[|s| - |r|..]
    ensures forall i :: 0 <= i < |s| - |r| ==> IsSpace(s[i])
    ensures r == [] || !IsSpace(r[0])
  {
    if s != [] && IsSpace(s[0]) then TrimLeft(s[1..]) else s
  }

  /** What is left of `s` after its maximal trailing run of whitespace. */
  function TrimRight(s: string): (r: string)
    ensures |r| <= |s| && r == s[..|r|]
    ensures forall i :: |r| <= i < |s| ==> IsSpace(s[i])
    ensures r == [] || !IsSpace(r[|r| - 1])
  {
    if s != [] && IsSpace(s[|s| - 1]) then TrimRight(s[..|s| - 1]) else s
  }

  /** Cutting at the first non-space character is exactly TrimLeft. */
  lemma {:induction false} TrimLeftAt(s: string, i: nat)
    requires i <= |s|
    requires forall k :: 0 <= k < i ==> IsSpace(s[k])
    requires i < |s| ==> !IsSpace(s[i])
    ensures TrimLeft(s) == s[i..]
  {
    if i > 0 {
      assert s[1..][i - 1..] == s[i..];
      TrimLeftAt(s[1..], i - 1);
    }
  }

  /** Cutting after the last non-space character is exactly TrimRight. */
  lemma {:induction false} TrimRightAt(s: string, j: nat)
    requires j <= |s|
    requires forall k :: j <= k < |s| ==> IsSpace(s[k])
    requires j > 0 ==> !IsSpace(s[j - 1])
    ensures TrimRight(s) == s[..j]
  {
    if j < |s| {
      assert s[..|s| - 1][..j] == s[..j];
      TrimRightAt(s[..|s| - 1], j);
    }
  }

  /** ltrim, rtrim and trim are idempotent. */
  lemma TrimIdempotent(s: string)
    ensures TrimLeft(TrimLeft(s)) == TrimLeft(s)
    ensures TrimRight(TrimRight(s)) == TrimRight(s)
    ensures TrimRight(TrimLeft(TrimRight(TrimLeft(s)))) == TrimRight(TrimLeft(s))
  {
    var t := TrimRight(TrimLeft(s));
    if t != [] {
      assert t[0] == TrimLeft(s)[0];
      TrimLeftAt(t, 0);
    }
  }

  /** Each side's "changed" flag: the length drops iff that end is whitespace. */
  lemma TrimChangedIff(s: string)
    ensures |TrimLeft(s)| < |s| <==> s != [] && IsSpace(s[0])
    ensures |TrimRight(s)| < |s| <==> s != [] && IsSpace(s[|s| - 1])
  {
  }

  /** Dropping a front the back trim never reaches commutes with the back trim. */
  lemma TrimRightDropFront(s: string, a: nat)
    requires a < |TrimRight(s)|
    ensures TrimRight(s[a..]) == TrimRight(s)[a..]
  {
    var r := TrimRight(s);
    var b := |r|;
    var t := s[a..];
    forall k | b - a <= k < |t|
      ensures IsSpace(t[k])
    {
      assert t[k] == s[k + a];
    }
    assert t[b - a - 1] == r[b - 1];
    TrimRightAt(t, b - a);
    SliceOfSlice(s, a, b);
  }

  lemma SliceOfSlice(s: string, a: nat, b: nat)
    requires a <= b <= |s|
    ensures s[a..][..b - a] == s[a..b] == s[..b][a..]
  {
  }

  /** The back trim keeps the leading whitespace and the first non-space after it. */
  lemma TrimLeftOfTrimRight(s: string)
    requires TrimLeft(s) != []
    ensures |s| - |TrimLeft(s)| < |TrimRight(s)|
    ensures TrimLeft(TrimRight(s)) == TrimRight(s)[|s| - |TrimLeft(s)|..]
  {
    var a := |s| - |TrimLeft(s)|;
    var r := TrimRight(s);
    assert !IsSpace(s[a]) by { assert TrimLeft(s)[0] == s[a]; }
    assert a < |r|;
    forall k | 0 <= k < a
      ensures IsSpace(r[k])
    {
      assert r[k] == s[k];
    }
    assert r[a] == s[a];
    TrimLeftAt(r, a);
  }

  /**
   * Trimming the front first (as the code does) or the back first leaves
   * the same string.
   */
  lemma TrimOrderIrrelevant(s: string)
    ensures TrimRight(TrimLeft(s)) == TrimLeft(TrimRight(s))
  {
    if TrimLeft(s) == [] {
      TrimRightAt(s, 0);
    } else {
      var a := |s| - |TrimLeft(s)|;
      TrimLeftOfTrimRight(s);
      TrimRightDropFront(s, a);
    }
  }

  /**
   * The value `trim` returns: ltrim's flag and then rtrim's flag on what
   * ltrim left, combined with `&&`. A true report means the string changed.
   */
  function TrimReport(s: string): (r: bool)
    ensures r ==> TrimRight(TrimLeft(s)) != s
  {
    |TrimLeft(s)| < |s| && |TrimRight(TrimLeft(s))| < |TrimLeft(s)|
  }

  /**
   * `trim` reports a change only when the string starts AND ends with
   * whitespace and holds at least one non-space character.
   */
  lemma TrimReportIff(s: string)
    ensures TrimReport(s) <==>
      |s| > 0 && IsSpace(s[0]) && IsSpace(s[|s| - 1]) &&
      exists i :: 0 <= i < |s| && !IsSpace(s[i])
  {
    var l := TrimLeft(s);
    if l != [] {
      assert l[|l| - 1] == s[|s| - 1];
      assert !IsSpace(s[|s| - |l|]);
    } else {
      assert forall i :: 0 <= i < |s| ==> IsSpace(s[i]);
    }
  }

  /** `std::find_if(s.begin(), s.end(), !isspace)`, as an index. */
  method FirstNonSpace(s: string) returns (i: nat)
    ensures i <= |s|
    ensures forall k :: 0 <= k < i ==> IsSpace(s[k])
    ensures i < |s| ==> !IsSpace(s[i])
    ensures s[i..] == TrimLeft(s)
  {
    i := 0;
    while i < |s| && IsSpace(s[i])
      invariant i <= |s|
      invariant forall k :: 0 <= k < i ==> IsSpace(s[k])
    {
      i := i + 1;
    }
    TrimLeftAt(s, i);
  }

  /** `std::find_if(s.rbegin(), s.rend(), !isspace).base()`, as an index. */
  method EndOfNonSpace(s: string) returns (j: nat)
    ensures j <= |s|
    ensures forall k :: j <= k < |s| ==> IsSpace(s[k])
    ensures j > 0 ==> !IsSpace(s[j - 1])
    ensures s[..j] == TrimRight(s)
  {
    j := |s|;
    while j > 0 && IsSpace(s[j - 1])
      invariant j <= |s|
      invariant forall k :: j <= k < |s| ==> IsSpace(s[k])
    {
      j := j - 1;
    }
    TrimRightAt(s, j);
  }

  /** A `std::string` owned by the caller and passed by reference. */
  class MutableString {
    var value: string

    constructor (s: string)
      ensures value == s
    {
      value := s;
    }
  }

  /** `ltrim(s, to_trim)`: erases the leading whitespace; `toTrim` is unused. */
  method LTrim(s: MutableString, toTrim: char) returns (changed: bool)
    modifies s
    ensures s.value == TrimLeft(old(s.value))
    ensures changed <==> |s.value| < |old(s.value)|
  {
    var initialLength := |s.value|;
    var first := FirstNonSpace(s.value);
    s.value := s.value[first..];
    changed := |s.value| < initialLength;
  }

  /** `rtrim(s, to_trim)`: erases the trailing whitespace; `toTrim` is unused. */
  method RTrim(s: MutableString, toTrim: char) returns (changed: bool)
    modifies s
    ensures s.value == TrimRight(old(s.value))
    ensures changed <==> |s.value| < |old(s.value)|
  {
    var initialLength := |s.value|;
    var end := EndOfNonSpace(s.value);
    s.value := s.value[..end];
    changed := |s.value| < initialLength;
  }

  /**
   * `trim(s, to_trim)` as written: ltrim, then rtrim, and the result is
   * `rtrim(...) && ltrim_result`, so both calls always run but the flag is
   * the conjunction of the two.
   */
  method Trim(s: MutableString, toTrim: char) returns (changed: bool)
    modifies s
    ensures s.value == TrimRight(TrimLeft(old(s.value)))
    ensures changed == TrimReport(old(s.value))
  {
    var ltrimResult := LTrim(s, toTrim);
    var rtrimResult := RTrim(s, toTrim);
    changed := rtrimResult && ltrimResult;
  }

  /** An input where `trim` edits the string and still reports false. */
  lemma TrimReportMissesOneSidedChange()
    ensures TrimRight(TrimLeft("  a")) == "a"
    ensures !TrimReport("  a")
    ensures TrimRight(TrimLeft("   ")) == ""
    ensures !TrimReport("   ")
  {
    TrimLeftAt("  a", 2);
    TrimRightAt("a", 1);
    TrimLeftAt("   ", 3);
  }

  /**
   * `trim` as its comment describes it: true if either side was trimmed,
   * which is the same as "the string changed".
   */
  method TrimReportingAny(s: MutableString, toTrim: char) returns (changed: bool)
    modifies s
    ensures s.value == TrimRight(TrimLeft(old(s.value)))
    ensures changed <==> s.value != old(s.value)
  {
    var ltrimResult := LTrim(s, toTrim);
    var rtrimResult := RTrim(s, toTrim);
    changed := rtrimResult || ltrimResult;
  }
}
