/**
 Bitwise operations on numbers of a given number of bits, defined bit by bit from the least
 significant one.  "Exclusive or" with the same number twice gives the original back, "or" of
 differences is zero exactly if there are none, and a mask on a long number acts on its bytes one
 by one.  The stream cipher, the comparison of tags and the clamped Poly1305 key need these.
 */
module Bitwise {
  import opened Basics
  import opened LittleEndian

  function Pow2(n: nat): (r: nat)
    ensures r >= 1
  {
    if n == 0 then 1 else 2 * Pow2(n - 1)
  }

  function Xor(a: nat, b: nat, bits: nat): nat {
    if bits == 0 then 0 else (if a % 2 == b % 2 then 0 else 1) + 2 * Xor(a / 2, b / 2, bits - 1)
  }

  function Or(a: nat, b: nat, bits: nat): nat {
    if bits == 0 then 0 else (if a % 2 == 0 && b % 2 == 0 then 0 else 1) + 2 * Or(a / 2, b / 2, bits - 1)
  }

  function And(a: nat, b: nat, bits: nat): nat {
    if bits == 0 then 0 else (if a % 2 == 1 && b % 2 == 1 then 1 else 0) + 2 * And(a / 2, b / 2, bits - 1)
  }

  lemma {:induction false} HalfOf(bit: nat, rest: nat)
    requires bit < 2
    ensures (bit + 2 * rest) / 2 == rest && (bit + 2 * rest) % 2 == bit
  {
  }

  lemma {:induction false} XorBound(a: nat, b: nat, bits: nat)
    ensures Xor(a, b, bits) < Pow2(bits)
  {
    if bits > 0 {
      XorBound(a / 2, b / 2, bits - 1);
    }
  }

  lemma {:induction false} OrBound(a: nat, b: nat, bits: nat)
    ensures Or(a, b, bits) < Pow2(bits)
  {
    if bits > 0 {
      OrBound(a / 2, b / 2, bits - 1);
    }
  }

  /** Combining twice with the same number gives the original back. */
  lemma {:induction false} XorCancel(a: nat, b: nat, bits: nat)
    requires a < Pow2(bits)
    ensures Xor(Xor(a, b, bits), b, bits) == a
  {
    if bits > 0 {
      XorCancel(a / 2, b / 2, bits - 1);
      var low := if a % 2 == b % 2 then 0 else 1;
      HalfOf(low, Xor(a / 2, b / 2, bits - 1));
      assert Xor(a, b, bits) / 2 == Xor(a / 2, b / 2, bits - 1);
    }
  }

  lemma {:induction false} XorZero(a: nat, b: nat, bits: nat)
    requires a < Pow2(bits) && b < Pow2(bits)
    ensures Xor(a, b, bits) == 0 <==> a == b
  {
    if bits > 0 {
      XorZero(a / 2, b / 2, bits - 1);
    }
  }

  lemma {:induction false} OrZero(a: nat, b: nat, bits: nat)
    requires a < Pow2(bits) && b < Pow2(bits)
    ensures Or(a, b, bits) == 0 <==> a == 0 && b == 0
  {
    if bits > 0 {
      OrZero(a / 2, b / 2, bits - 1);
    }
  }

  function XorByte(a: byte, b: byte): (r: byte) {
    XorBound(a, b, 8);
    assert Pow2(8) == 256;
    Xor(a, b, 8)
  }

  function Bit(v: nat, i: nat): nat {
    if i == 0 then v % 2 else Bit(v / 2, i - 1)
  }

  /** Each bit of an exclusive or is set exactly if the two bits differ. */
  lemma {:induction false} XorBit(a: nat, b: nat, bits: nat, i: nat)
    requires i < bits
    ensures Bit(Xor(a, b, bits), i) == if Bit(a, i) == Bit(b, i) then 0 else 1
  {
    HalfOf(if a % 2 == b % 2 then 0 else 1, Xor(a / 2, b / 2, bits - 1));
    if i > 0 {
      XorBit(a / 2, b / 2, bits - 1, i - 1);
    }
  }

  lemma {:induction false} XorByteCancel(a: byte, b: byte)
    ensures XorByte(XorByte(a, b), b) == a
  {
    assert Pow2(8) == 256;
    XorCancel(a, b, 8);
  }

  function OrByte(a: byte, b: byte): (r: byte) {
    OrBound(a, b, 8);
    assert Pow2(8) == 256;
    Or(a, b, 8)
  }

  /** Collecting differences with "or" stays zero exactly as long as there is none. */
  lemma {:induction false} OrXorByte(acc: byte, a: byte, b: byte)
    ensures OrByte(acc, XorByte(a, b)) == 0 <==> acc == 0 && a == b
  {
    assert Pow2(8) == 256;
    XorZero(a, b, 8);
    XorBound(a, b, 8);
    OrZero(acc, XorByte(a, b), 8);
  }

  // ---------- masks ----------

  lemma {:induction false} AndSplit(a: nat, c: nat, b: nat, d: nat, n: nat, m: nat)
    requires a < Pow2(n) && b < Pow2(n)
    ensures And(a + Pow2(n) * c, b + Pow2(n) * d, n + m) == And(a, b, n) + Pow2(n) * And(c, d, m)
  {
    if n == 0 {
      assert And(a, b, 0) == 0;
    } else {
      AndSplit(a / 2, c, b / 2, d, n - 1, m);
      SplitHalf(a, c, n);
      SplitHalf(b, d, n);
      PowTimes(n, And(c, d, m));
    }
  }

  lemma {:induction false} PowTimes(n: nat, v: int)
    requires n >= 1
    ensures Pow2(n) * v == 2 * (Pow2(n - 1) * v)
  {
  }

  lemma {:induction false} SplitHalf(a: nat, c: nat, n: nat)
    requires n >= 1
    ensures 0 <= Pow2(n) * c && 0 <= Pow2(n - 1) * c
    ensures (a + Pow2(n) * c) / 2 == a / 2 + Pow2(n - 1) * c
    ensures (a + Pow2(n) * c) % 2 == a % 2
  {
    PowTimes(n, c);
  }

  function AndEach(a: Bytes, b: Bytes): seq<nat>
    requires |a| == |b|
  {
    if a == [] then [] else [And(a[0], b[0], 8)] + AndEach(a[1..], b[1..])
  }

  /** A number from little-endian digits that need not be bytes. */
  function FromDigits(d: seq<nat>): nat {
    if d == [] then 0 else d[0] + 256 * FromDigits(d[1..])
  }

  /** Masking a number is masking its bytes. */
  lemma {:induction false} AndBytes(a: Bytes, b: Bytes)
    requires |a| == |b|
    ensures And(FromBytes(a), FromBytes(b), 8 * |a|) == FromDigits(AndEach(a, b))
  {
    if a != [] {
      AndBytes(a[1..], b[1..]);
      assert Pow2(8) == 256;
      AndSplit(a[0], FromBytes(a[1..]), b[0], FromBytes(b[1..]), 8, 8 * (|a| - 1));
      assert AndEach(a, b)[1..] == AndEach(a[1..], b[1..]);
    }
  }

  lemma {:induction false} AndOnes(a: nat, n: nat)
    requires a < Pow2(n)
    ensures And(a, Pow2(n) - 1, n) == a
  {
    if n > 0 {
      AndOnes(a / 2, n - 1);
    }
  }

  lemma {:induction false} AndNothing(a: nat, n: nat)
    ensures And(a, 0, n) == 0
  {
    if n > 0 {
      AndNothing(a / 2, n - 1);
    }
  }

  /** The three byte masks of section 2.5 of RFC 8439: everything, the low four bits, all but the low two. */
  lemma {:induction false} MaskAll(x: byte)
    ensures And(x, 255, 8) == x
  {
    assert Pow2(8) == 256;
    AndOnes(x, 8);
  }

  lemma {:induction false} MaskLowFour(x: byte)
    ensures And(x, 15, 8) == x % 16
  {
    assert Pow2(4) == 16;
    AndSplit(x % 16, x / 16, 15, 0, 4, 4);
    AndOnes(x % 16, 4);
    AndNothing(x / 16, 4);
  }

  lemma {:induction false} MaskHighSix(x: byte)
    ensures And(x, 252, 8) == x - x % 4
  {
    assert Pow2(2) == 4 && Pow2(6) == 64;
    AndSplit(x % 4, x / 4, 0, 63, 2, 6);
    AndNothing(x % 4, 2);
    AndOnes(x / 4, 6);
  }
}
