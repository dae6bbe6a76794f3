/**
 * Bytes and big-endian bit lists: the reference in which the base64
 * decoder's accumulator arithmetic is specified.
 */
module Bits {

  /** An 8-bit byte, as stored in a `std::string` or an `unsigned char` buffer. */
  type uint8 = x: int | 0 <= x < 256

  function Pow2(n: nat): (p: nat)
    ensures p >= 1
  {
    if n == 0 then 1 else 2 * Pow2(n - 1)
  }

  /** The number a bit list denotes, most significant bit first. */
  function BitsToNat(b: seq<bool>): (n: nat)
    ensures n < Pow2(|b|)
  {
    if b == [] then 0 else 2 * BitsToNat(b[..|b| - 1]) + if b[|b| - 1] then 1 else 0
  }

  /** The `w`-bit big-endian representation of `n`. */
  function NatToBits(n: nat, w: nat): (b: seq<bool>)
    requires n < Pow2(w)
    ensures |b| == w && BitsToNat(b) == n
  {
    if w == 0 then [] else NatToBits(n / 2, w - 1) + [n % 2 == 1]
  }

  /** A bit list is the representation of its own value. */
  lemma {:induction false} NatToBitsOfBitsToNat(b: seq<bool>)
    ensures NatToBits(BitsToNat(b), |b|) == b
  {
    if b != [] {
      var init := b[..|b| - 1];
      NatToBitsOfBitsToNat(init);
      assert BitsToNat(b) / 2 == BitsToNat(init);
      assert b == init + [b[|b| - 1]];
    }
  }

  lemma DoubleFactor(x: int, p: int)
    ensures x * (2 * p) == 2 * (x * p)
  {
  }

  /** Appending bits shifts the value of the front part left. */
  lemma {:induction false} BitsToNatAppend(a: seq<bool>, b: seq<bool>)
    ensures BitsToNat(a + b) == BitsToNat(a) * Pow2(|b|) + BitsToNat(b)
  {
    if b == [] {
      assert a + b == a;
    } else {
      var init := b[..|b| - 1];
      var bit := if b[|b| - 1] then 1 else 0;
      assert (a + b)[..|a + b| - 1] == a + init;
      assert (a + b)[|a + b| - 1] == b[|b| - 1];
      BitsToNatAppend(a, init);
      var x, p := BitsToNat(a), Pow2(|init|);
      assert BitsToNat(a + b) == 2 * (x * p + BitsToNat(init)) + bit;
      assert BitsToNat(b) == 2 * BitsToNat(init) + bit;
      assert Pow2(|b|) == 2 * p;
      DoubleFactor(x, p);
    }
  }

  /** The bytes the complete 8-bit groups of `b` spell; a shorter tail is dropped. */
  function BitsToBytes(b: seq<bool>): (r: seq<uint8>)
    ensures |r| == |b| / 8
  {
    if |b| < 8 then []
    else
      assert Pow2(8) == 256;
      [BitsToNat(b[..8]) as uint8] + BitsToBytes(b[8..])
  }

  /** The bits of a byte sequence, eight per byte, most significant first. */
  function BytesToBits(d: seq<uint8>): (b: seq<bool>)
    ensures |b| == 8 * |d|
  {
    assert Pow2(8) == 256;
    if d == [] then [] else NatToBits(d[0], 8) + BytesToBits(d[1..])
  }

  /** Grouping splits at a byte boundary. */
  lemma {:induction false} BitsToBytesAppend(a: seq<bool>, b: seq<bool>)
    requires |a| % 8 == 0
    ensures BitsToBytes(a + b) == BitsToBytes(a) + BitsToBytes(b)
    decreases |a|
  {
    if a != [] {
      assert (a + b)[..8] == a[..8];
      assert (a + b)[8..] == a[8..] + b;
      BitsToBytesAppend(a[8..], b);
    } else {
      assert a + b == b;
    }
  }

  /** Fewer than 8 bits after a byte boundary add no byte. */
  lemma BitsToBytesShortTail(a: seq<bool>, b: seq<bool>)
    requires |a| % 8 == 0 && |b| < 8
    ensures BitsToBytes(a + b) == BitsToBytes(a)
  {
    BitsToBytesAppend(a, b);
  }

  /** Between 8 and 15 bits after a byte boundary add exactly their first byte. */
  lemma BitsToBytesOneMore(a: seq<bool>, b: seq<bool>)
    requires |a| % 8 == 0 && 8 <= |b| < 16
    ensures BitsToBytes(a + b) == BitsToBytes(a) + [BitsToNat(b[..8])]
  {
    BitsToBytesAppend(a, b);
  }

  /** Exactly 8 bits after a byte boundary add the byte they spell. */
  lemma BitsToBytesOneByte(a: seq<bool>, c: seq<bool>)
    requires |a| % 8 == 0 && |c| == 8
    ensures BitsToBytes(a + c) == BitsToBytes(a) + [BitsToNat(c)]
  {
    BitsToBytesOneMore(a, c);
    assert c[..8] == c;
  }

  /** Shifting in a 6-bit group multiplies by 64. */
  lemma BitsToNatAppendSextet(a: seq<bool>, t: nat)
    requires t < 64 && Pow2(6) == 64
    ensures BitsToNat(a + NatToBits(t, 6)) == BitsToNat(a) * 64 + t
  {
    var six := NatToBits(t, 6);
    assert |six| == 6;
    BitsToNatAppend(a, six);
  }

  /** Grouping the bits of `d` gives `d` back, whatever fewer than 8 bits follow. */
  lemma {:induction false} BitsToBytesOfBytesToBits(d: seq<uint8>, tail: seq<bool>)
    requires |tail| < 8
    ensures BitsToBytes(BytesToBits(d) + tail) == d
  {
    if d != [] {
      assert Pow2(8) == 256;
      var first := NatToBits(d[0], 8);
      var b := BytesToBits(d) + tail;
      assert b == first + (BytesToBits(d[1..]) + tail);
      assert b[..8] == first;
      assert b[8..] == BytesToBits(d[1..]) + tail;
      BitsToBytesOfBytesToBits(d[1..], tail);
    }
  }
}
