/** `toLower` and `endsWith` of src/zsutil.cpp. */
module StringHelpers {

  /** `isupper` in the "C" locale. */
  predicate IsUpper(c: char) {
    'A' <= c <= 'Z'
  }

  /** `::tolower` in the "C" locale: 'A'..'Z' move 32 code points up to 'a'..'z'. */
  function LowerChar(c: char): (r: char)
    ensures IsUpper(c) ==> 'a' <= r <= 'z' && r as int - 'a' as int == c as int - 'A' as int
    ensures !IsUpper(c) ==> r == c
  {
    if IsUpper(c) then (c as int + 32) as char else c
  }

  /** `std::transform(..., ::tolower)` over a copy of the string. */
  function ToLower(s: string): (r: string)
    ensures |r| == |s|
    ensures forall i :: 0 <= i < |s| && !IsUpper(s[i]) ==> r[i] == s[i]
    ensures forall i :: 0 <= i < |s| && IsUpper(s[i]) ==>
      r[i] as int == s[i] as int + 32
    ensures forall i :: 0 <= i < |r| ==> !IsUpper(r[i])
  {
    if s == [] then [] else [LowerChar(s[0])] + ToLower(s[1..])
  }

  /** Lower-casing twice changes nothing further. */
  lemma ToLowerIdempotent(s: string)
    ensures ToLower(ToLower(s)) == ToLower(s)
  {
  }

  /**
   * `std::equal(ending.rbegin(), ending.rend(), value.rbegin())`: compares
   * `ending` with the tail of `value`, last characters first.
   */
  function EqualFromBack(ending: string, value: string): (r: bool)
    requires |ending| <= |value|
    ensures r <==> value[|value| - |ending|..] == ending
  {
    if ending == [] then true
    else ending[|ending| - 1] == value[|value| - 1] &&
         EqualFromBack(ending[..|ending| - 1], value[..|value| - 1])
  }

  /** `endsWith(value, ending)`: false when `ending` is longer, else the suffix test. */
  function EndsWith(value: string, ending: string): (r: bool)
    ensures |ending| > |value| ==> !r
    ensures r <==> |ending| <= |value| && value[|value| - |ending|..] == ending
  {
    if |ending| > |value| then false
    else EqualFromBack(ending, value)
  }

  /** EndsWith agrees with "value is something followed by ending". */
  lemma EndsWithIffConcat(value: string, ending: string)
    ensures EndsWith(value, ending) <==> exists head :: value == head + ending
  {
    if EndsWith(value, ending) {
      var head := value[..|value| - |ending|];
      assert value == head + ending;
    }
    if exists head :: value == head + ending {
      var head :| value == head + ending;
      assert value[|value| - |ending|..] == ending;
    }
  }
}
