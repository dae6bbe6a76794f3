/**
 * `split(s, delim)` of src/zsutil.cpp: repeated `std::getline(ss, item, delim)`
 * on a string stream over `s`, each item appended to the result.
 */
module Splitter {
  import opened Sequences

  /** The index of the first `delim` in `s` at or after `from`, or |s| when there is none. */
  function NextDelim(s: string, delim: char, from: nat): (e: nat)
    requires from <= |s|
    ensures from <= e <= |s|
    ensures forall k :: from <= k < e ==> s[k] != delim
    ensures e < |s| ==> s[e] == delim
    decreases |s| - from
  {
    if from == |s| || s[from] == delim then from else NextDelim(s, delim, from + 1)
  }

  /**
   * The items getline yields from the unread part `s[pos..]`: the text up
   * to the next delimiter (which is consumed), as long as at least one
   * character is left to read.
   */
  function FieldsFrom(s: string, delim: char, pos: nat): (r: seq<string>)
    requires pos <= |s|
    ensures |r| == 0 <==> pos == |s|
    decreases |s| - pos
  {
    if pos == |s| then []
    else
      var end := NextDelim(s, delim, pos);
      [s[pos..end]] + if end < |s| then FieldsFrom(s, delim, end + 1) else []
  }

  /** The items `split(s, delim)` returns. */
  function Fields(s: string, delim: char): (r: seq<string>)
    ensures r == [] <==> s == []
    ensures forall i :: 0 <= i < |r| ==> delim !in r[i]
  {
    FieldsHaveNoDelim(s, delim, 0);
    FieldsFrom(s, delim, 0)
  }

  /** The items separated by single `delim` characters. */
  function Join(parts: seq<string>, delim: char): string {
    if |parts| == 0 then []
    else if |parts| == 1 then parts[0]
    else parts[0] + [delim] + Join(parts[1..], delim)
  }

  /** One getline call: the item read at `pos` ends at the first delimiter after it. */
  lemma FieldsStep(s: string, delim: char, pos: nat, end: nat)
    requires pos < |s| && pos <= end <= |s|
    requires forall k :: pos <= k < end ==> s[k] != delim
    requires end < |s| ==> s[end] == delim
    ensures FieldsFrom(s, delim, pos) ==
      [s[pos..end]] + if end < |s| then FieldsFrom(s, delim, end + 1) else []
  {
    var e := NextDelim(s, delim, pos);
    assert e == end;
  }

  /** No item contains the delimiter. */
  lemma {:induction false} FieldsHaveNoDelim(s: string, delim: char, pos: nat)
    requires pos <= |s|
    ensures forall i :: 0 <= i < |FieldsFrom(s, delim, pos)| ==> delim !in FieldsFrom(s, delim, pos)[i]
    decreases |s| - pos
  {
    if pos < |s| {
      var end := NextDelim(s, delim, pos);
      if end < |s| {
        FieldsHaveNoDelim(s, delim, end + 1);
      }
    }
  }

  /** `s` without its last character when that character is `delim`. */
  function WithoutFinalDelim(s: string, delim: char): string {
    if s != [] && s[|s| - 1] == delim then s[..|s| - 1] else s
  }

  /** Joining a first item onto a non-empty rest puts one delimiter between them. */
  lemma JoinCons(head: string, tail: seq<string>, delim: char)
    requires tail != []
    ensures Join([head] + tail, delim) == head + [delim] + Join(tail, delim)
  {
    assert ([head] + tail)[1..] == tail;
  }

  lemma WithoutFinalDelimCons(head: string, delim: char, rest: string)
    requires rest != []
    ensures WithoutFinalDelim(head + [delim] + rest, delim) ==
            head + [delim] + WithoutFinalDelim(rest, delim)
  {
    var s := head + [delim] + rest;
    assert s[|s| - 1] == rest[|rest| - 1];
    if rest[|rest| - 1] == delim {
      assert s[..|s| - 1] == head + [delim] + rest[..|rest| - 1];
    }
  }

  lemma SplitAround(s: string, pos: nat, end: nat)
    requires pos <= end < |s|
    ensures s[pos..] == s[pos..end] + [s[end]] + s[end + 1..]
  {
  }

  /** The base cases of JoinFieldsFrom: the last item, with or without a final delimiter. */
  lemma JoinLastField(s: string, delim: char, pos: nat, end: nat)
    requires pos < |s| && end == NextDelim(s, delim, pos) && end + 1 >= |s|
    ensures Join(FieldsFrom(s, delim, pos), delim) == WithoutFinalDelim(s[pos..], delim)
  {
    var fs := FieldsFrom(s, delim, pos);
    if end == |s| {
      assert s[pos..end] == s[pos..];
      assert fs == [s[pos..]];
    } else {
      assert fs == [s[pos..end]];
      assert s[pos..][..|s[pos..]| - 1] == s[pos..end];
    }
  }

  /** The inductive step of JoinFieldsFrom: an item followed by a delimiter and more text. */
  lemma JoinFieldsAfterDelim(s: string, delim: char, pos: nat, end: nat)
    requires pos <= end && end + 1 < |s|
    requires end == NextDelim(s, delim, pos)
    requires Join(FieldsFrom(s, delim, end + 1), delim) == WithoutFinalDelim(s[end + 1..], delim)
    ensures Join(FieldsFrom(s, delim, pos), delim) == WithoutFinalDelim(s[pos..], delim)
  {
    var item, rest := s[pos..end], FieldsFrom(s, delim, end + 1);
    FieldsStep(s, delim, pos, end);
    FieldsStep(s, delim, end + 1, NextDelim(s, delim, end + 1));
    assert rest != [];
    JoinCons(item, rest, delim);
    SplitAround(s, pos, end);
    assert s[end] == delim;
    WithoutFinalDelimCons(item, delim, s[end + 1..]);
  }

  /**
   * Joining the items read from `s[pos..]` gives that text back, except
   * that a final delimiter is lost.
   */
  lemma {:induction false} JoinFieldsFrom(s: string, delim: char, pos: nat)
    requires pos <= |s|
    ensures Join(FieldsFrom(s, delim, pos), delim) == WithoutFinalDelim(s[pos..], delim)
    decreases |s| - pos, 1
  {
    if pos == |s| {
      JoinNoFields(s, delim, pos);
    } else if NextDelim(s, delim, pos) + 1 < |s| {
      JoinFieldsThenMore(s, delim, pos, NextDelim(s, delim, pos));
    } else {
      JoinLastField(s, delim, pos, NextDelim(s, delim, pos));
    }
  }

  /** JoinFieldsFrom when the item read at `pos` ends at a delimiter with more text after it. */
  lemma {:induction false} JoinFieldsThenMore(s: string, delim: char, pos: nat, end: nat)
    requires pos <= end && end + 1 < |s| && end == NextDelim(s, delim, pos)
    ensures Join(FieldsFrom(s, delim, pos), delim) == WithoutFinalDelim(s[pos..], delim)
    decreases |s| - pos, 0
  {
    JoinFieldsFrom(s, delim, end + 1);
    JoinFieldsAfterDelim(s, delim, pos, end);
  }

  /** JoinFieldsFrom once everything has been read. */
  lemma JoinNoFields(s: string, delim: char, pos: nat)
    requires pos == |s|
    ensures Join(FieldsFrom(s, delim, pos), delim) == WithoutFinalDelim(s[pos..], delim)
  {
    assert s[pos..] == [];
  }

  /**
   * Joining the items gives `s` back, except that a final delimiter is
   * lost: getline produces no empty item after it.
   */
  lemma JoinFields(s: string, delim: char)
    ensures Join(Fields(s, delim), delim) ==
      if s != [] && s[|s| - 1] == delim then s[..|s| - 1] else s
  {
    JoinFieldsFrom(s, delim, 0);
    assert s[0..] == s;
  }

  /** Two delimiters in a row give an empty item between them. */
  lemma FieldsKeepEmptyItemsAt(a: char, b: char, c: char, d: char)
    requires a != d && b != d && c != d
    ensures Fields([a, d, b, d, d, c], d) == [[a], [b], [], [c]]
  {
    var s := [a, d, b, d, d, c];
    assert FieldsFrom(s, d, 6) == [];
    FieldsStep(s, d, 5, 6);
    assert FieldsFrom(s, d, 5) == [[c]] by { assert s[5..6] == [c]; }
    FieldsStep(s, d, 4, 4);
    assert FieldsFrom(s, d, 4) == [[], [c]] by { assert s[4..4] == []; }
    FieldsStep(s, d, 2, 3);
    assert FieldsFrom(s, d, 2) == [[b], [], [c]] by { assert s[2..3] == [b]; }
    FieldsStep(s, d, 0, 1);
    assert s[0..1] == [a];
  }

  /** The sample input "a,b,,c" gives ["a", "b", "", "c"]. */
  lemma FieldsKeepEmptyItems()
    ensures Fields("a,b,,c", ',') == ["a", "b", "", "c"]
  {
    FieldsKeepEmptyItemsAt('a', 'b', 'c', ',');
    assert "a,b,,c" == ['a', ',', 'b', ',', ',', 'c'];
  }

  /** A trailing delimiter gives no final empty item; a lone one gives one empty item. */
  lemma FieldsDropTrailingEmpty()
    ensures Fields("a,", ',') == ["a"]
    ensures Fields(",", ',') == [""]
  {
    FieldsStep("a,", ',', 0, 1);
    assert "a,"[0..1] == "a" && FieldsFrom("a,", ',', 2) == [];
    FieldsStep(",", ',', 0, 0);
    assert ","[0..0] == "" && FieldsFrom(",", ',', 1) == [];
  }

  /** The loop invariant of `split` survives one getline call. */
  lemma SplitStep(s: string, delim: char, pos: nat, end: nat, result: seq<string>, all: seq<string>)
    requires pos < |s| && end == NextDelim(s, delim, pos)
    requires result + FieldsFrom(s, delim, pos) == all
    ensures (result + [s[pos..end]]) + FieldsFrom(s, delim, if end < |s| then end + 1 else end) == all
  {
    var next := if end < |s| then end + 1 else end;
    var item := s[pos..end];
    var tail := FieldsFrom(s, delim, next);
    FieldsStep(s, delim, pos, end);
    assert FieldsFrom(s, delim, pos) == [item] + tail;
    AppendAssoc(result, [item], tail);
  }


  /** One `getline` reading characters until `delim` or the end of the stream. */
  method ScanItem(s: string, delim: char, pos: nat) returns (end: nat)
    requires pos <= |s|
    ensures end == NextDelim(s, delim, pos)
  {
    end := pos;
    while end < |s| && s[end] != delim
      invariant pos <= end <= |s|
      invariant NextDelim(s, delim, pos) == NextDelim(s, delim, end)
    {
      end := end + 1;
    }
  }

  /** `split(s, delim)`: one getline per item until the stream is exhausted. */
  method Split(s: string, delim: char) returns (result: seq<string>)
    ensures result == Fields(s, delim)
  {
    result := [];
    var pos := 0;
    while pos < |s|
      invariant 0 <= pos <= |s|
      invariant result + FieldsFrom(s, delim, pos) == Fields(s, delim)
      decreases |s| - pos
    {
      var end := ScanItem(s, delim, pos);
      SplitStep(s, delim, pos, end, result, Fields(s, delim));
      result := result + [s[pos..end]];
      pos := if end < |s| then end + 1 else end;
    }
  }
}
