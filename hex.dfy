/**
 * `bytesToHex` of src/zsutil.cpp: every byte printed as two lower-case
 * hexadecimal digits, zero-padded (`std::hex` with `setw(2)` and
 * `setfill('0')`). Specified by `ToHex` and paired with its inverse
 * `FromHex`.
 */
module Hex {
  import opened Bits

  /** The digit `std::hex` prints for a nibble: '0'..'9', then 'a'..'f'. */
  function HexDigit(n: nat): (c: char)
    requires n < 16
    ensures DigitValue(c) == n
  {
    if n < 10 then ('0' as int + n) as char else ('a' as int + n - 10) as char
  }

  /** The nibble a lower-case hexadecimal digit stands for; -1 for any other character. */
  function DigitValue(c: char): (v: int)
    ensures -1 <= v < 16
  {
    if '0' <= c <= '9' then c as int - '0' as int
    else if 'a' <= c <= 'f' then c as int - 'a' as int + 10
    else -1
  }

  predicate IsHexDigit(c: char) {
    DigitValue(c) != -1
  }

  /** A digit is the one printed for its own value. */
  lemma HexDigitOfValue(c: char)
    requires IsHexDigit(c)
    ensures HexDigit(DigitValue(c)) == c
  {
  }

  /** Two digits are the ones printed for the byte they spell. */
  lemma PairOfDigits(hi: char, lo: char)
    requires IsHexDigit(hi) && IsHexDigit(lo)
    ensures 0 <= DigitValue(hi) * 16 + DigitValue(lo) < 256
    ensures ByteToHex(DigitValue(hi) * 16 + DigitValue(lo)) == [hi, lo]
  {
    var b := DigitValue(hi) * 16 + DigitValue(lo);
    assert b / 16 == DigitValue(hi) && b % 16 == DigitValue(lo);
    HexDigitOfValue(hi);
    HexDigitOfValue(lo);
  }

  /** The two digits of one byte, high nibble first. */
  function ByteToHex(b: uint8): (h: string)
    ensures |h| == 2
    ensures DigitValue(h[0]) == b / 16 && DigitValue(h[1]) == b % 16
    ensures DigitValue(h[0]) * 16 + DigitValue(h[1]) == b
  {
    [HexDigit(b / 16), HexDigit(b % 16)]
  }

  /** What `bytesToHex` prints for a byte sequence. */
  function ToHex(bytes: seq<uint8>): (h: string)
    ensures |h| == 2 * |bytes|
    ensures forall i :: 0 <= i < |h| ==> IsHexDigit(h[i])
  {
    if bytes == [] then []
    else ToHex(bytes[..|bytes| - 1]) + ByteToHex(bytes[|bytes| - 1])
  }

  /** Byte `i` is printed at positions `2 * i` and `2 * i + 1`. */
  lemma {:induction false} ToHexPairs(bytes: seq<uint8>)
    ensures forall i :: 0 <= i < |bytes| ==> ToHex(bytes)[2 * i..2 * i + 2] == ByteToHex(bytes[i])
    decreases |bytes|
  {
    if bytes != [] {
      var init := bytes[..|bytes| - 1];
      var h := ToHex(bytes);
      ToHexPairs(init);
      assert h == ToHex(init) + ByteToHex(bytes[|bytes| - 1]);
      forall i | 0 <= i < |bytes|
        ensures h[2 * i..2 * i + 2] == ByteToHex(bytes[i])
      {
        if i < |init| {
          assert h[2 * i..2 * i + 2] == ToHex(init)[2 * i..2 * i + 2];
          assert init[i] == bytes[i];
        }
      }
    }
  }

  /** Reads pairs of hexadecimal digits back into bytes. */
  function FromHex(h: string): (bytes: seq<uint8>)
    requires |h| % 2 == 0
    requires forall i :: 0 <= i < |h| ==> IsHexDigit(h[i])
    ensures |bytes| == |h| / 2
  {
    if h == [] then []
    else
      var hi, lo := DigitValue(h[0]), DigitValue(h[1]);
      assert IsHexDigit(h[0]) && IsHexDigit(h[1]);
      [hi * 16 + lo] + FromHex(h[2..])
  }

  /** Reading back what was printed gives the bytes. */
  lemma {:induction false} FromHexToHex(bytes: seq<uint8>)
    ensures FromHex(ToHex(bytes)) == bytes
    decreases |bytes|
  {
    if bytes != [] {
      var h := ToHex(bytes);
      var b, rest := bytes[0], bytes[1..];
      assert bytes == [b] + rest;
      ToHexCons(b, rest);
      assert h == ByteToHex(b) + ToHex(rest);
      assert h[..2] == ByteToHex(b);
      assert h[2..] == ToHex(rest);
      FromHexToHex(rest);
    }
  }

  /** Printing what was read gives the string back. */
  lemma {:induction false} ToHexFromHex(h: string)
    requires |h| % 2 == 0
    requires forall i :: 0 <= i < |h| ==> IsHexDigit(h[i])
    ensures ToHex(FromHex(h)) == h
    decreases |h|
  {
    if h != [] {
      ToHexFromHex(h[2..]);
      ToHexFromHexStep(h);
    }
  }

  /** One step of `ToHexFromHex`: the first pair prints back given that the rest does. */
  lemma ToHexFromHexStep(h: string)
    requires |h| >= 2 && |h| % 2 == 0
    requires forall i :: 0 <= i < |h| ==> IsHexDigit(h[i])
    requires ToHex(FromHex(h[2..])) == h[2..]
    ensures ToHex(FromHex(h)) == h
  {
    var b := FromHexHead(h);
    PrintPair(b, FromHex(h[2..]), h[0], h[1], h[2..]);
    FirstPair(h);
  }

  /** The first byte read is the one the first two digits spell. */
  lemma FromHexHead(h: string) returns (b: uint8)
    requires |h| >= 2 && |h| % 2 == 0
    requires forall i :: 0 <= i < |h| ==> IsHexDigit(h[i])
    ensures IsHexDigit(h[0]) && IsHexDigit(h[1])
    ensures b == DigitValue(h[0]) * 16 + DigitValue(h[1])
    ensures FromHex(h) == [b] + FromHex(h[2..])
  {
    assert IsHexDigit(h[0]) && IsHexDigit(h[1]);
    b := DigitValue(h[0]) * 16 + DigitValue(h[1]);
  }

  /** Printing a byte in front of bytes that print as `tail`. */
  lemma PrintPair(b: uint8, bs: seq<uint8>, hi: char, lo: char, tail: string)
    requires IsHexDigit(hi) && IsHexDigit(lo)
    requires b == DigitValue(hi) * 16 + DigitValue(lo)
    requires ToHex(bs) == tail
    ensures ToHex([b] + bs) == [hi, lo] + tail
  {
    ToHexCons(b, bs);
    PairOfDigits(hi, lo);
  }

  /** A string of two or more characters is its first pair followed by the rest. */
  lemma FirstPair(h: string)
    requires |h| >= 2
    ensures h == [h[0], h[1]] + h[2..]
  {
  }

  /** Two different byte sequences never print the same. */
  lemma ToHexInjective(a: seq<uint8>, b: seq<uint8>)
    requires ToHex(a) == ToHex(b)
    ensures a == b
  {
    FromHexToHex(a);
    FromHexToHex(b);
  }

  /** The digits of the first byte come first. */
  lemma {:induction false} ToHexCons(b: uint8, rest: seq<uint8>)
    ensures ToHex([b] + rest) == ByteToHex(b) + ToHex(rest)
    decreases |rest|
  {
    if rest != [] {
      var init, last := rest[..|rest| - 1], rest[|rest| - 1];
      assert ([b] + rest)[..|rest|] == [b] + init;
      assert ([b] + rest)[|rest|] == last;
      ToHexCons(b, init);
    }
  }

  /** Every byte takes two digits, so 0 prints as "00", 255 as "ff" and 16 as "10". */
  lemma ToHexExample()
    ensures ToHex([0, 255, 16]) == "00ff10"
  {
    var s: seq<uint8> := [0, 255, 16];
    assert s[..2] == [0, 255];
    assert s[..2][..1] == [0];
    assert ToHex([0]) == "00";
    assert ToHex([0, 255]) == "00ff";
  }

  /**
   * `bytesToHex(data, len)`: the first `len` bytes of the buffer, two
   * digits each; a `len` of zero or less prints nothing.
   */
  method BytesToHex(data: array<uint8>, len: int) returns (hex: string)
    requires len <= data.Length
    ensures hex == ToHex(data[..if len <= 0 then 0 else len])
  {
    hex := "";
    var i := 0;
    while i < len
      invariant 0 <= i <= if len <= 0 then 0 else len
      invariant hex == ToHex(data[..i])
    {
      assert data[..i + 1][..i] == data[..i];
      hex := hex + ByteToHex(data[i]);
      i := i + 1;
    }
  }
}
