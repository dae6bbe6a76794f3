/**
 * `base64Decode` of src/zsutil.cpp: the RFC 4648 section 4 alphabet, a bit
 * accumulator, no padding, and silent truncation at the first character
 * outside the alphabet. Specified against bit lists (module Bits) and
 * paired with an unpadded encoder for the round trip.
 */
module Base64 {
  import opened Sequences
  import opened Bits

  /**
   * The lookup string of the decoder, "A..Za..z0..9+/", written as four
   * 16-character blocks.
   */
  const BLOCK0: string := "ABCDEFGHIJKLMNOP"
  const BLOCK1: string := "QRSTUVWXYZabcdef"
  const BLOCK2: string := "ghijklmnopqrstuv"
  const BLOCK3: string := "wxyz0123456789+/"
  const ALPHABET: string := BLOCK0 + BLOCK1 + BLOCK2 + BLOCK3

  /**
   * The table `T`: the 6-bit value of an alphabet character, -1 for any
   * other character ('=' and every non-ASCII character included).
   */
  function Value(c: char): (v: int)
    ensures -1 <= v < 64
  {
    if 'A' <= c <= 'Z' then c as int - 'A' as int
    else if 'a' <= c <= 'z' then c as int - 'a' as int + 26
    else if '0' <= c <= '9' then c as int - '0' as int + 52
    else if c == '+' then 62
    else if c == '/' then 63
    else -1
  }

  predicate IsBase64Char(c: char) {
    Value(c) != -1
  }

  /** 'A'..'P' map to 0..15. */
  lemma Block0Values(i: nat)
    requires i < 16
    ensures |BLOCK0| == 16 && Value(BLOCK0[i]) == i
  {
  }

  /** 'Q'..'Z' and 'a'..'f' map to 16..31. */
  lemma Block1Values(i: nat)
    requires i < 16
    ensures |BLOCK1| == 16 && Value(BLOCK1[i]) == 16 + i
  {
  }

  /** 'g'..'v' map to 32..47. */
  lemma Block2Values(i: nat)
    requires i < 16
    ensures |BLOCK2| == 16 && Value(BLOCK2[i]) == 32 + i
  {
  }

  /** 'w'..'z', '0'..'9', '+' and '/' map to 48..63. */
  lemma Block3Values(i: nat)
    requires i < 16
    ensures |BLOCK3| == 16 && Value(BLOCK3[i]) == 48 + i
  {
  }

  /**
   * `T` is the table the decoder's initialisation loop builds: character
   * `ALPHABET[i]` maps to `i`, and nothing else maps to a value.
   */
  lemma {:induction false} ValueIsAlphabetIndex(i: nat)
    requires i < 64
    ensures |ALPHABET| == 64 && Value(ALPHABET[i]) == i
  {
    if i < 16 { Block0Values(i); }
    else if i < 32 { Block1Values(i - 16); }
    else if i < 48 { Block2Values(i - 32); }
    else { Block3Values(i - 48); }
  }

  /** Different alphabet characters have different values. */
  lemma ValueInjective(c: char, d: char)
    requires IsBase64Char(c) && IsBase64Char(d) && Value(c) == Value(d)
    ensures c == d
  {
  }

  lemma AlphabetIndexOfValue(c: char)
    requires IsBase64Char(c)
    ensures |ALPHABET| == 64 && ALPHABET[Value(c)] == c
  {
    ValueIsAlphabetIndex(Value(c));
    ValueInjective(ALPHABET[Value(c)], c);
  }

  /** The length of the longest prefix of `s` drawn from the alphabet. */
  function ValidLength(s: string): (k: nat)
    ensures k <= |s|
    ensures forall i :: 0 <= i < k ==> IsBase64Char(s[i])
    ensures k < |s| ==> !IsBase64Char(s[k])
  {
    if s == [] || !IsBase64Char(s[0]) then 0 else 1 + ValidLength(s[1..])
  }

  /** The 6-bit groups of a run of alphabet characters, concatenated. */
  function SextetBits(s: string): (b: seq<bool>)
    requires forall i :: 0 <= i < |s| ==> IsBase64Char(s[i])
    ensures |b| == 6 * |s|
  {
    if s == [] then []
    else
      assert Pow2(6) == 64;
      assert IsBase64Char(s[|s| - 1]);
      SextetBits(s[..|s| - 1]) + NatToBits(Value(s[|s| - 1]), 6)
  }

  /**
   * What the decoder returns: the complete bytes of the bits of the valid
   * prefix; fewer than 8 leftover bits are dropped.
   */
  function Decode(s: string): (r: seq<uint8>)
    ensures |r| == 6 * ValidLength(s) / 8
  {
    BitsToBytes(SextetBits(s[..ValidLength(s)]))
  }

  /** Every 4 valid characters give 3 bytes; 2 and 3 leftover characters give 1 and 2. */
  lemma DecodeLengthByGroups(s: string)
    ensures |Decode(s)| == 3 * (ValidLength(s) / 4) + [0, 0, 1, 2][ValidLength(s) % 4]
  {
  }

  /** "SGVsbG8=" has seven valid characters, so it decodes to five bytes. */
  lemma DecodeUnpaddedHelloLength()
    ensures ValidLength("SGVsbG8=") == 7
    ensures |Decode("SGVsbG8=")| == 5
  {
    var s := "SGVsbG8=";
    assert forall i :: 0 <= i < 7 ==> IsBase64Char(s[i]);
    assert !IsBase64Char(s[7]);
  }

  /** The decoder sees only the valid prefix. */
  lemma DecodeOnlyReadsValidPrefix(s: string)
    ensures Decode(s) == Decode(s[..ValidLength(s)])
  {
    var k := ValidLength(s);
    assert ValidLength(s[..k]) == k;
    assert s[..k][..k] == s[..k];
  }

  /** Whatever follows the first invalid character (an '=' for one) is ignored. */
  lemma DecodeStopsAtInvalid(prefix: string, c: char, rest: string)
    requires forall i :: 0 <= i < |prefix| ==> IsBase64Char(prefix[i])
    requires !IsBase64Char(c)
    ensures Decode(prefix + [c] + rest) == Decode(prefix)
  {
    var s := prefix + [c] + rest;
    assert s[|prefix|] == c;
    assert ValidLength(s) == |prefix|;
    assert s[..|prefix|] == prefix;
    assert ValidLength(prefix) == |prefix|;
    assert prefix[..|prefix|] == prefix;
  }

  /** Appending one alphabet character appends its six bits. */
  lemma SextetBitsSnoc(s: string, c: char)
    requires forall i :: 0 <= i < |s| ==> IsBase64Char(s[i])
    requires IsBase64Char(c)
    ensures Pow2(6) == 64
    ensures SextetBits(s + [c]) == SextetBits(s) + NatToBits(Value(c), 6)
  {
    assert Pow2(6) == 64;
    assert (s + [c])[..|s|] == s;
  }

  /** The bits of the first `i` characters of the valid prefix. */
  function PrefixBits(s: string, i: nat): (b: seq<bool>)
    requires i <= ValidLength(s)
    ensures |b| == 6 * i
  {
    SextetBits(s[..i])
  }

  /** One more character of the valid prefix appends its six bits. */
  lemma PrefixBitsStep(s: string, i: nat)
    requires i < ValidLength(s)
    ensures Pow2(6) == 64
    ensures PrefixBits(s, i + 1) == PrefixBits(s, i) + NatToBits(Value(s[i]), 6)
  {
    assert s[..i + 1] == s[..i] + [s[i]];
    SextetBitsSnoc(s[..i], s[i]);
  }

  /** Dividing by 1, 4 or 16 drops the low bits; the low byte of what is left is `y`. */
  lemma ExtractByte(h: int, y: int, u: int, z: int, v: int, k: nat)
    requires k == 0 || k == 2 || k == 4
    requires 0 <= y < 256 && 0 <= z < Pow2(k)
    requires u == h * 256 + y && v == u * Pow2(k) + z
    ensures (v / Pow2(k)) % 256 == y
  {
    var p := Pow2(k);
    if k == 0 {
      assert p == 1;
      ExtractByteBelow(h, y, u, z, v, 1);
    } else if k == 2 {
      assert p == 4;
      ExtractByteBelow(h, y, u, z, v, 4);
    } else {
      assert p == 16;
      ExtractByteBelow(h, y, u, z, v, 16);
    }
  }

  lemma ExtractByteBelow(h: int, y: int, u: int, z: int, v: int, p: int)
    requires p == 1 || p == 4 || p == 16
    requires 0 <= y < 256 && 0 <= z < p
    requires u == h * 256 + y && v == u * p + z
    ensures (v / p) % 256 == y
  {
    if p == 1 {
      assert v == u;
    } else if p == 4 {
      assert v == u * 4 + z;
      assert v / 4 == u;
    } else {
      assert v == u * 16 + z;
      assert v / 16 == u;
    }
    ModShift(h, y, u);
  }

  /** The byte `c` sits `k` bits above the bottom of the value of `h + c + z`. */
  lemma ByteOf(h: seq<bool>, c: seq<bool>, z: seq<bool>, k: nat)
    requires k == 0 || k == 2 || k == 4
    requires |c| == 8 && |z| == k
    ensures (BitsToNat(h + c + z) / Pow2(k)) % 256 == BitsToNat(c)
  {
    assert Pow2(8) == 256;
    BitsToNatAppend(h, c);
    BitsToNatAppend(h + c, z);
    ExtractByte(BitsToNat(h), BitsToNat(c), BitsToNat(h + c), BitsToNat(z), BitsToNat(h + c + z), k);
  }

  /**
   * One emitting step of the decoder on the bit-list view: with `done`
   * already converted and `pending + six` holding 8 + k bits, the next
   * byte is the first 8 of them, read from the accumulated value as
   * `(val >> k) & 0xFF`.
   */
  lemma EmitStep(done: seq<bool>, pending: seq<bool>, six: seq<bool>, k: nat)
    requires |done| % 8 == 0 && |six| == 6
    requires k == 0 || k == 2 || k == 4
    requires |pending| + 6 == 8 + k
    ensures done + pending + six == (done + (pending + six)[..8]) + (pending + six)[8..]
    ensures BitsToBytes(done + (pending + six)[..8]) ==
      BitsToBytes(done) + [(BitsToNat(done + pending + six) / Pow2(k)) % 256]
  {
    var tail := pending + six;
    var chunk, rest := tail[..8], tail[8..];
    assert tail == chunk + rest;
    assert done + pending + six == done + chunk + rest;
    ByteOf(done, chunk, rest, k);
    BitsToBytesOneByte(done, chunk);
  }

  /**
   * Wrapping at 32 bits (0x1_0000_0000 is 2^32, the range of the
   * accumulator's bit pattern) ignores whole multiples of 2^32.
   */
  lemma ModWord(a: int, x: int, y: int)
    requires y == a * 0x1_0000_0000 + x
    ensures y % 0x1_0000_0000 == x % 0x1_0000_0000
  {
  }

  /** Shifting a sextet into the wrapped accumulator wraps the unbounded shift. */
  lemma ShiftWrapped(n: nat, val: int, t: nat, m: int)
    requires val == n % 0x1_0000_0000 && m == n * 64 + t
    ensures (val * 64 + t) % 0x1_0000_0000 == m % 0x1_0000_0000
  {
    var q := n / 0x1_0000_0000;
    assert n == q * 0x1_0000_0000 + val;
    ModWord(q * 64, val * 64 + t, m);
  }

  /** The accumulator after shifting in a sextet is the value of the extended bit list, wrapped. */
  lemma ShiftSextet(bits: seq<bool>, t: nat, val: int)
    requires t < 64 && Pow2(6) == 64
    requires val == BitsToNat(bits) % 0x1_0000_0000
    ensures (val * 64 + t) % 0x1_0000_0000 == BitsToNat(bits + NatToBits(t, 6)) % 0x1_0000_0000
  {
    BitsToNatAppendSextet(bits, t);
    ShiftWrapped(BitsToNat(bits), val, t, BitsToNat(bits + NatToBits(t, 6)));
  }

  lemma ModShift(a: int, x: int, y: int)
    requires y == a * 256 + x
    ensures y % 256 == x % 256
  {
  }

  /** The byte read at bit offset 0, 2 or 4 lies inside the low 32 bits. */
  lemma WrappedByte(n: nat, val: int, k: nat)
    requires k == 0 || k == 2 || k == 4
    requires val == n % 0x1_0000_0000
    ensures (val / Pow2(k)) % 256 == (n / Pow2(k)) % 256
  {
    var q := n / 0x1_0000_0000;
    assert n == q * 0x1_0000_0000 + val;
    if k == 0 {
      assert Pow2(k) == 1;
      ModShift(q * 0x100_0000, val, n);
    } else if k == 2 {
      assert Pow2(k) == 4;
      ModShift(q * 0x40_0000, val / 4, n / 4);
    } else {
      assert Pow2(k) == 16;
      ModShift(q * 0x10_0000, val / 16, n / 16);
    }
  }

  /**
   * What the decoding loop keeps after reading `i` characters: all were
   * valid; their bits are split into `done`, already emitted as `out`, and
   * `pending` (`valb + 8` bits); `val` is the value of all bits, wrapped
   * at 32 bits.
   */
  ghost predicate DecoderState(input: string, i: nat, out: seq<uint8>, val: int, valb: int,
                               done: seq<bool>, pending: seq<bool>)
  {
    && i <= ValidLength(input)
    && done + pending == PrefixBits(input, i)
    && (valb == -8 || valb == -6 || valb == -4 || valb == -2)
    && |done| == 8 * |out| && |pending| == valb + 8
    && val == BitsToNat(done + pending) % 0x1_0000_0000
    && out == BitsToBytes(done)
  }

  /** Before the loop nothing has been read. */
  lemma DecoderStart(input: string)
    ensures DecoderState(input, 0, [], 0, -8, [], [])
  {
    assert input[..0] == [];
  }

  /** Once the loop stops, at the end or at an invalid character, the output is `Decode(input)`. */
  lemma DecoderFinish(input: string, i: nat, out: seq<uint8>, val: int, valb: int,
                      done: seq<bool>, pending: seq<bool>)
    requires DecoderState(input, i, out, val, valb, done, pending)
    requires i == |input| || !IsBase64Char(input[i])
    ensures out == Decode(input)
  {
    assert ValidLength(input) == i;
    BitsToBytesShortTail(done, pending);
  }

  /** A valid character that leaves fewer than 8 bits pending only extends `pending`. */
  lemma PendingStep(input: string, i: nat, out: seq<uint8>, val: int, valb: int,
                    done: seq<bool>, pending: seq<bool>,
                    t: int, val': int, valb': int, pending': seq<bool>)
    requires DecoderState(input, i, out, val, valb, done, pending)
    requires i < |input| && t == Value(input[i]) && t != -1
    requires val' == (val * 64 + t) % 0x1_0000_0000
    requires valb' == valb + 6 < 0
    requires pending' == pending + NatToBits(t, 6)
    ensures DecoderState(input, i + 1, out, val', valb', done, pending')
  {
    var six := NatToBits(t, 6);
    assert i < ValidLength(input);
    PrefixBitsStep(input, i);
    assert val' == BitsToNat(done + pending + six) % 0x1_0000_0000 by {
      ShiftSextet(done + pending, t, val);
    }
    AppendAssoc(done, pending, six);
  }

  /**
   * A valid character that completes 8 pending bits (`k` is `valb` after
   * the increment) emits the next byte.
   */
  lemma EmittingStep(input: string, i: nat, out: seq<uint8>, val: int, valb: int,
                     done: seq<bool>, pending: seq<bool>, t: int, k: int,
                     out': seq<uint8>, val': int, valb': int, done': seq<bool>, pending': seq<bool>)
    requires DecoderState(input, i, out, val, valb, done, pending)
    requires i < |input| && t == Value(input[i]) && t != -1
    requires val' == (val * 64 + t) % 0x1_0000_0000
    requires k == valb + 6 >= 0 && valb' == k - 8
    requires out' == out + [(val' / Pow2(k)) % 256]
    requires done' == done + (pending + NatToBits(t, 6))[..8]
    requires pending' == (pending + NatToBits(t, 6))[8..]
    ensures DecoderState(input, i + 1, out', val', valb', done', pending')
  {
    var six := NatToBits(t, 6);
    var tail := pending + six;
    var n := BitsToNat(done + pending + six);
    assert i < ValidLength(input);
    PrefixBitsStep(input, i);
    assert val' == n % 0x1_0000_0000 by {
      ShiftSextet(done + pending, t, val);
    }
    assert done + pending + six == done' + pending' &&
           BitsToBytes(done') == BitsToBytes(done) + [(n / Pow2(k)) % 256] by {
      EmitStep(done, pending, six, k);
    }
    assert (val' / Pow2(k)) % 256 == (n / Pow2(k)) % 256 by {
      WrappedByte(n, val', k);
    }
  }

  /**
   * `base64Decode(in)`: `val` collects every 6-bit value, `valb` counts the
   * bits not yet emitted (minus 8), and each time 8 are ready the top
   * ones are emitted as `(val >> valb) & 0xFF`.
   */
  method Base64Decode(input: string) returns (out: seq<uint8>)
    ensures out == Decode(input)
  {
    out := [];
    var val, valb := 0, -8;
    var i := 0;
    ghost var done, pending: seq<bool> := [], [];
    DecoderStart(input);
    while i < |input|
      invariant DecoderState(input, i, out, val, valb, done, pending)
    {
      var t := Value(input[i]);
      if t == -1 {
        break;
      }
      ghost var out0, val0, valb0, done0, pending0 := out, val, valb, done, pending;
      ghost var tail := pending + NatToBits(t, 6);
      val := (val * 64 + t) % 0x1_0000_0000;
      valb := valb + 6;
      if valb >= 0 {
        ghost var k := valb;
        out := out + [(val / Pow2(valb)) % 256];
        done, pending := done + tail[..8], tail[8..];
        valb := valb - 8;
        EmittingStep(input, i, out0, val0, valb0, done0, pending0, t, k, out, val, valb, done, pending);
      } else {
        pending := tail;
        PendingStep(input, i, out0, val0, valb0, done0, pending0, t, val, valb, pending);
      }
      i := i + 1;
    }
    DecoderFinish(input, i, out, val, valb, done, pending);
  }

  /**
   * The standard base64 encoding of RFC 4648 section 4 without '='
   * padding: the bits of the data, zero-filled to a multiple of 6.
   */
  function Encode(data: seq<uint8>): (r: string)
    ensures forall i :: 0 <= i < |r| ==> IsBase64Char(r[i])
  {
    var bits := BytesToBits(data);
    SextetsToChars(bits + ZeroFill(|bits|))
  }

  /** The zero bits that complete the last 6-bit group. */
  function ZeroFill(n: nat): (pad: seq<bool>)
    ensures |pad| < 6 && (n + |pad|) % 6 == 0
  {
    seq((6 - n % 6) % 6, _ => false)
  }

  /** One alphabet character per 6-bit group. */
  function SextetsToChars(b: seq<bool>): (r: string)
    requires |b| % 6 == 0
    ensures |r| == |b| / 6
    ensures forall i :: 0 <= i < |r| ==> IsBase64Char(r[i])
  {
    if b == [] then []
    else
      var v := BitsToNat(b[|b| - 6..]);
      assert Pow2(6) == 64;
      ValueIsAlphabetIndex(v);
      SextetsToChars(b[..|b| - 6]) + [ALPHABET[v]]
  }

  lemma SplitAt(b: seq<bool>, n: nat)
    requires n <= |b|
    ensures b == b[..n] + b[n..]
  {
  }

  lemma {:induction false} SextetBitsOfChars(b: seq<bool>)
    requires |b| % 6 == 0
    ensures SextetBits(SextetsToChars(b)) == b
  {
    if b != [] {
      var init, last := b[..|b| - 6], b[|b| - 6..];
      var v := BitsToNat(last);
      assert Pow2(6) == 64;
      ValueIsAlphabetIndex(v);
      var c := ALPHABET[v];
      var sc := SextetsToChars(init);
      assert SextetsToChars(b) == sc + [c];
      SextetBitsSnoc(sc, c);
      SextetBitsOfChars(init);
      NatToBitsOfBitsToNat(last);
      assert Value(c) == v && |last| == 6;
      assert NatToBits(Value(c), 6) == last;
      assert SextetBits(sc + [c]) == init + last;
      SplitAt(b, |b| - 6);
    }
  }

  /** Decoding the unpadded standard encoding of any byte sequence returns it. */
  lemma DecodeEncode(data: seq<uint8>)
    ensures Decode(Encode(data)) == data
  {
    var bits := BytesToBits(data);
    var pad := ZeroFill(|bits|);
    var e := Encode(data);
    assert ValidLength(e) == |e|;
    assert e[..|e|] == e;
    SextetBitsOfChars(bits + pad);
    BitsToBytesOfBytesToBits(data, pad);
  }
}
