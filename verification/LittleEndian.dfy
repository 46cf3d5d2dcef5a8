/**
 Little-endian numbers: reading the bytes of a number, writing a number to a given count of
 bytes, and the two as inverses of each other.  Writing keeps the low bytes and drops the rest, so
 that writing and then reading gives the number back exactly if it fits.  X25519, ChaCha20,
 Poly1305 and the length prefixes of the framings all read and write numbers in this order.
 */
module LittleEndian {
  import opened Basics

  function Pow256(n: nat): (r: nat)
    ensures r >= 1
  {
    if n == 0 then 1 else 256 * Pow256(n - 1)
  }

  /** The number whose bytes, least significant first, are `b`. */
  function FromBytes(b: Bytes): nat {
    if b == [] then 0 else b[0] + 256 * FromBytes(b[1..])
  }

  /** The `n` least significant bytes of `v`. */
  function ToBytes(v: nat, n: nat): (r: Bytes)
    ensures |r| == n
  {
    if n == 0 then [] else [v % 256] + ToBytes(v / 256, n - 1)
  }

  /** `v` shifted right by `n` bytes. */
  function ShiftRight(v: nat, n: nat): nat {
    if n == 0 then v else ShiftRight(v / 256, n - 1)
  }

  lemma {:induction false} FromBytesBound(b: Bytes)
    ensures FromBytes(b) < Pow256(|b|)
  {
    if b != [] {
      FromBytesBound(b[1..]);
    }
  }

  lemma {:induction false} FromToBytes(v: nat, n: nat)
    requires v < Pow256(n)
    ensures FromBytes(ToBytes(v, n)) == v
  {
    if n > 0 {
      FromToBytes(v / 256, n - 1);
      assert ToBytes(v, n)[1..] == ToBytes(v / 256, n - 1);
    }
  }

  lemma {:induction false} ToFromBytes(b: Bytes)
    ensures ToBytes(FromBytes(b), |b|) == b
  {
    if b != [] {
      ToFromBytes(b[1..]);
      assert b == [b[0]] + b[1..];
    }
  }

  lemma {:induction false} ToBytesInjective(v: nat, w: nat, n: nat)
    requires v < Pow256(n) && w < Pow256(n) && ToBytes(v, n) == ToBytes(w, n)
    ensures v == w
  {
    FromToBytes(v, n);
    FromToBytes(w, n);
  }

  /** A byte string encodes a number that fits exactly when the number reads back from it. */
  lemma {:induction false} EncodesIff(w: nat, b: Bytes)
    requires w < Pow256(|b|)
    ensures ToBytes(w, |b|) == b <==> FromBytes(b) == w
  {
    FromToBytes(w, |b|);
    ToFromBytes(b);
  }

  lemma {:induction false} ToBytesAt(v: nat, n: nat, i: nat)
    requires i < n
    ensures ToBytes(v, n)[i] == ShiftRight(v, i) % 256
  {
    if i > 0 {
      ToBytesAt(v / 256, n - 1, i - 1);
    }
  }

  lemma {:induction false} LowBytes(v: nat, n: nat, m: nat)
    requires m <= n
    ensures ToBytes(v, n)[..m] == ToBytes(v, m)
  {
    if m > 0 {
      LowBytes(v / 256, n - 1, m - 1);
      assert ToBytes(v, n)[..m] == [v % 256] + ToBytes(v / 256, n - 1)[..m - 1];
    }
  }

  lemma {:induction false} ShiftRightSucc(v: nat, n: nat)
    ensures ShiftRight(v, n + 1) == ShiftRight(v, n) / 256
  {
    if n > 0 {
      ShiftRightSucc(v / 256, n - 1);
    }
  }

  lemma {:induction false} FromBytesAppend(a: Bytes, b: Bytes)
    ensures FromBytes(a + b) == FromBytes(a) + Pow256(|a|) * FromBytes(b)
  {
    if a == [] {
      assert a + b == b;
    } else {
      FromBytesAppend(a[1..], b);
      assert (a + b)[1..] == a[1..] + b;
      assert 256 * (Pow256(|a| - 1) * FromBytes(b)) == Pow256(|a|) * FromBytes(b);
    }
  }

  lemma {:induction false} FromBytesSnoc(b: Bytes, x: byte)
    ensures FromBytes(b + [x]) == FromBytes(b) + Pow256(|b|) * x
  {
    if b == [] {
      assert ([] + [x])[1..] == [];
    } else {
      FromBytesSnoc(b[1..], x);
      assert (b + [x])[1..] == b[1..] + [x];
      assert 256 * (Pow256(|b| - 1) * x) == Pow256(|b|) * x;
    }
  }
}
