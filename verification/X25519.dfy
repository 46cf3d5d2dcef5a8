/** The Montgomery ladder of section 5 of RFC 7748 in integer arithmetic. */
module X25519 {
  // The conditional swap is deferred, inversion is Fermat exponentiation, and the codecs are little-endian.

  import opened Basics
  import opened LittleEndian
  import opened ModArith

  /** The field modulus, 2 to the power 255 minus 19. */
  const P: int := 0x7fff_ffff_ffff_ffff_ffff_ffff_ffff_ffff_ffff_ffff_ffff_ffff_ffff_ffff_ffff_ffed

  /** `(A - 2) / 4` for the curve constant `A`. */
  const A24: int := 121665

  const A: int := 486662

  datatype Error = InverseOfZero | WrongLength(which: string)

  // ---------- field operations ----------

  /** The remainder of truncated division, which has the sign of the dividend. */
  function Rem(a: int, b: int): int
    requires b > 0
    decreases a < 0, if a < 0 then -a else a
  {
    if a < 0 then -Rem(-a, b) else if a < b then a else Rem(a - b, b)
  }

  lemma {:induction false} RemCong(a: nat, b: nat)
    requires b > 0
    ensures 0 <= Rem(a, b) < b
    ensures Cong(Rem(a, b), a, b)
  {
    if a < b {
      CongRefl(a, b);
    } else {
      RemCong(a - b, b);
      CongBy(a - b, a, b, -1);
      CongTrans(Rem(a, b), a - b, a, b);
    }
  }

  function Normalize(value: int): int {
    var reduced := Rem(value, P);
    if reduced >= 0 then reduced else reduced + P
  }

  function ModAdd(a: int, b: int): int { Normalize(a + b) }

  function ModSub(a: int, b: int): int { Normalize(a - b) }

  function ModMul(a: int, b: int): int { Normalize(Times(a, b)) }

  function ModSquare(a: int): int { ModMul(a, a) }

  /** Normalisation gives the canonical representative, also of negative numbers. */
  lemma {:induction false} NormalizeIs(v: int)
    ensures 0 <= Normalize(v) < P && Cong(Normalize(v), v, P)
  {
    var r := Rem(v, P);
    if v >= 0 {
      RemCong(v, P);
    } else {
      RemCong(-v, P);
      CongRefl(0, P);
      CongSub(0, 0, Rem(-v, P), -v, P);
      if r < 0 {
        CongBy(r + P, r, P, 1);
        CongTrans(r + P, r, v, P);
      }
    }
  }

  /** Normalised numbers are equal exactly when the numbers are congruent. */
  lemma {:induction false} NormalizeEqual(v: int, w: int)
    ensures Normalize(v) == Normalize(w) <==> Cong(v, w, P)
  {
    NormalizeIs(v);
    NormalizeIs(w);
    CongSym(Normalize(v), v, P);
    CongSym(Normalize(w), w, P);
    if Normalize(v) == Normalize(w) {
      CongTrans(v, Normalize(v), w, P);
    }
    if Cong(v, w, P) {
      CongTrans(Normalize(v), v, w, P);
      CongTrans(Normalize(v), w, Normalize(w), P);
      CongEqual(Normalize(v), Normalize(w), P);
    }
  }

  lemma {:induction false} AddCong(a: int, a': int, b: int, b': int)
    requires Cong(a, a', P) && Cong(b, b', P)
    ensures Cong(ModAdd(a, b), a' + b', P)
  {
    NormalizeIs(a + b);
    CongAdd(a, a', b, b', P);
    CongTrans(ModAdd(a, b), a + b, a' + b', P);
  }

  lemma {:induction false} SubCong(a: int, a': int, b: int, b': int)
    requires Cong(a, a', P) && Cong(b, b', P)
    ensures Cong(ModSub(a, b), a' - b', P)
  {
    NormalizeIs(a - b);
    CongSub(a, a', b, b', P);
    CongTrans(ModSub(a, b), a - b, a' - b', P);
  }

  lemma {:induction false} ModMulIs(a: int, b: int)
    ensures 0 <= ModMul(a, b) < P && Cong(ModMul(a, b), a * b, P)
  {
    TimesIs(a, b);
    NormalizeIs(a * b);
  }

  lemma {:induction false} MulCong(a: int, a': int, b: int, b': int)
    requires Cong(a, a', P) && Cong(b, b', P)
    ensures Cong(ModMul(a, b), a' * b', P)
  {
    ModMulIs(a, b);
    CongMul(a, a', b, b', P);
    CongTrans(ModMul(a, b), a * b, a' * b', P);
  }

  lemma {:induction false} SquareCong(a: int, a': int)
    requires Cong(a, a', P)
    ensures 0 <= ModSquare(a) < P && Cong(ModSquare(a), a' * a', P)
  {
    ModMulIs(a, a);
    MulCong(a, a', a, a');
  }

  // ---------- exponentiation and inversion ----------

  lemma {:induction false} PowDouble(b: int, e: nat)
    ensures Pow(b * b, e) == Pow(b, 2 * e)
  {
    if e > 0 {
      PowDouble(b, e - 1);
      assert Pow(b, 2 * e) == b * Pow(b, 2 * e - 1) == b * (b * Pow(b, 2 * (e - 1)));
    }
  }

  lemma {:induction false} PowCong(a: int, b: int, e: nat)
    requires Cong(a, b, P)
    ensures Cong(Pow(a, e), Pow(b, e), P)
  {
    if e == 0 {
      CongRefl(1, P);
    } else {
      PowCong(a, b, e - 1);
      CongMul(a, b, Pow(a, e - 1), Pow(b, e - 1), P);
    }
  }

  /** Square-and-multiply; an exponent that is not positive gives 1. */
  method ModPow(base: int, exponent: int) returns (result: int)
    ensures 0 <= result < P
    ensures Cong(result, Pow(base, if exponent < 0 then 0 else exponent), P)
  {
    result := 1;
    var factor := Normalize(base);
    var remaining := exponent;
    ghost var total: nat := if exponent < 0 then 0 else exponent;
    NormalizeIs(base);
    PowCong(factor, base, total);
    while remaining > 0
      invariant 0 <= result < P
      invariant remaining <= total
      invariant exponent >= 0 ==> remaining >= 0
      invariant Cong(result * Pow(factor, if remaining < 0 then 0 else remaining), Pow(base, total), P)
    {
      ghost var before, f, half := result, factor, remaining / 2;
      if remaining % 2 == 1 {
        PowOdd(result, factor, half, Pow(base, total));
        result := ModMul(result, factor);
      }
      PowEven(result, factor, half, Pow(base, total));
      ModMulIs(before, f);
      factor := ModSquare(factor);
      remaining := remaining / 2;
    }
  }

  /** Moving one factor out of the remaining power into the result. */
  lemma {:induction false} PowOdd(result: int, factor: int, half: nat, goal: int)
    requires Cong(result * Pow(factor, 2 * half + 1), goal, P)
    ensures Cong(ModMul(result, factor) * Pow(factor, 2 * half), goal, P)
  {
    var w := Pow(factor, 2 * half);
    ModMulIs(result, factor);
    CongRefl(w, P);
    CongMul(ModMul(result, factor), result * factor, w, w, P);
    assert (result * factor) * w == result * (factor * w);
    CongTrans(ModMul(result, factor) * w, result * (factor * w), goal, P);
  }

  /** Halving the remaining exponent by squaring the factor. */
  lemma {:induction false} PowEven(result: int, factor: int, half: nat, goal: int)
    requires Cong(result * Pow(factor, 2 * half), goal, P)
    ensures Cong(result * Pow(ModSquare(factor), half), goal, P)
  {
    CongRefl(factor, P);
    SquareCong(factor, factor);
    PowDouble(factor, half);
    PowCong(ModSquare(factor), factor * factor, half);
    CongRefl(result, P);
    CongMul(result, result, Pow(ModSquare(factor), half), Pow(factor * factor, half), P);
    CongTrans(result * Pow(ModSquare(factor), half), result * Pow(factor, 2 * half), goal, P);
  }

  /** With a prime modulus, the power `P - 2` of a nonzero field element is its inverse. */
  lemma {:induction false} InverseIsInverse(value: int, inverse: int)
    requires Cong(inverse, Pow(value, P - 2), P)
    ensures IsPrime(P) && !Divides(P, value) ==> Cong(value * inverse, 1, P)
    ensures 0 < value < P ==> !Divides(P, value)
  {
    if 0 < value < P {
      DividesMod(P, value);
    }
    if IsPrime(P) && !Divides(P, value) {
      var v := value % P;
      CongMod(value, P);
      DividesMod(P, value);
      DividesMod(P, v);
      FermatInverse(P, v);
      CongSym(v, value, P);
      PowCong(value, v, P - 2);
      CongTrans(inverse, Pow(value, P - 2), Pow(v, P - 2), P);
      CongMul(value, v, inverse, Pow(v, P - 2), P);
      CongTrans(value * inverse, v * Pow(v, P - 2), 1, P);
    }
  }

  method ModInverse(value: int) returns (r: Result<int, Error>)
    ensures r.Err? <==> value == 0
    ensures r.Err? ==> r.error == InverseOfZero
    ensures r.Ok? ==> 0 <= r.value < P && Cong(r.value, Pow(value, P - 2), P)
    ensures r.Ok? && IsPrime(P) && 0 <= value < P ==> Cong(value * r.value, 1, P)
  {
    if value == 0 {
      return Err(InverseOfZero);
    }
    var v := ModPow(value, P - 2);
    InverseIsInverse(value, v);
    r := Ok(v);
  }

  // ---------- codecs ----------

  /** Reads a little-endian number of any length. */
  method BytesToBigInt(bytes: Bytes) returns (value: nat)
    ensures value == FromBytes(bytes)
  {
    value := 0;
    for i := |bytes| downto 0
      invariant value == FromBytes(bytes[i..])
    {
      assert bytes[i..][1..] == bytes[i + 1..];
      value := value * 256 + bytes[i];
    }
  }

  /** Writes the canonical representative as 32 little-endian bytes. */
  method BigintToBytes(value: int) returns (out: array<byte>)
    ensures fresh(out)
    ensures out[..] == ToBytes(value % P, 32)
  {
    NormalizeIs(value);
    CongMod(value, P);
    CongSym(value % P, value, P);
    CongTrans(Normalize(value), value, value % P, P);
    CongEqual(Normalize(value), value % P, P);
    var remaining := Normalize(value);
    ghost var all: nat := remaining;
    out := new byte[32];
    for i := 0 to 32
      invariant remaining == ShiftRight(all, i)
      invariant forall j :: 0 <= j < i ==> out[j] == ToBytes(all, 32)[j]
    {
      ToBytesAt(all, 32, i);
      ShiftRightSucc(all, i);
      out[i] := remaining % 256;
      remaining := remaining / 256;
    }
    assert out[..] == ToBytes(all, 32);
  }

  lemma {:induction false} PFits()
    ensures Pow256(32) == 2 * (P + 19)
    ensures P < Pow256(32)
  {
    assert Pow256(8) == 0x1_0000_0000_0000_0000 by {
      assert Pow256(4) == 0x1_0000_0000;
    }
    assert Pow256(16) == 0x1_0000_0000_0000_0000_0000_0000_0000_0000 by {
      assert Pow256(12) == 0x1_0000_0000 * Pow256(8);
    }
    assert Pow256(24) == 0x1_0000_0000_0000_0000 * Pow256(16) by {
      assert Pow256(20) == 0x1_0000_0000 * Pow256(16);
    }
    assert Pow256(28) == 0x1_0000_0000 * Pow256(24);
    assert Pow256(32) == 0x1_0000_0000 * Pow256(28);
  }

  /** Writing and reading back gives the value modulo `P`. */
  lemma {:induction false} WriteRead(value: int)
    ensures FromBytes(ToBytes(value % P, 32)) == value % P
  {
    PFits();
    FromToBytes(value % P, 32);
  }

  /** Reading and writing back gives exactly the reduced encodings back. */
  lemma {:induction false} ReadWrite(bytes: Bytes)
    requires |bytes| == 32
    ensures ToBytes(FromBytes(bytes) % P, |bytes|) == bytes <==> FromBytes(bytes) < P
  {
    PFits();
    EncodesIff(FromBytes(bytes) % P, bytes);
    ReducedIff(FromBytes(bytes));
  }

  lemma {:induction false} ReducedIff(v: nat)
    ensures v % P == v <==> v < P
  {
  }

  // ---------- the ladder ----------

  /** A point by its projective x-coordinate `x : z`; `z` is 0 at infinity. */
  datatype Proj = Proj(x: int, z: int)

  function Double(q: Proj): Proj {
    var a := ModAdd(q.x, q.z);
    var aa := ModSquare(a);
    var b := ModSub(q.x, q.z);
    var bb := ModSquare(b);
    var e := ModSub(aa, bb);
    Proj(ModMul(aa, bb), ModMul(e, ModAdd(aa, ModMul(A24, e))))
  }

  /** The sum of two points whose difference has the affine x-coordinate `x1`. */
  function DiffAdd(x1: int, q: Proj, r: Proj): Proj {
    var a := ModAdd(q.x, q.z);
    var b := ModSub(q.x, q.z);
    var c := ModAdd(r.x, r.z);
    var d := ModSub(r.x, r.z);
    var da := ModMul(d, a);
    var cb := ModMul(c, b);
    Proj(ModSquare(ModAdd(da, cb)), ModMul(x1, ModSquare(ModSub(da, cb))))
  }

  /** The number `k` shifted right by `n` bits. */
  function Shift(k: nat, n: nat): nat {
    if n == 0 then k else Shift(k / 2, n - 1)
  }

  function Bit(k: nat, n: nat): nat { Shift(k, n) % 2 }

  /** The ladder without swaps, on the bits 254 down to `n` of `k`. */
  function Steps(k: nat, x1: int, n: nat): (Proj, Proj)
    requires n <= 255
    decreases 255 - n, k
  {
    if n == 255 then (Proj(1, 0), Proj(x1, 1))
    else
      var (q, r) := Steps(k, x1, n + 1);
      if Bit(k, n) == 0 then (Double(q), DiffAdd(x1, q, r))
      else (DiffAdd(x1, q, r), Double(r))
  }

  function Square(v: int): int { v * v }

  lemma {:induction false} CrossSum(x: int, z: int, x': int, z': int)
    ensures (x' - z') * (x + z) + (x' + z') * (x - z) == 2 * (x * x' - z * z')
    ensures (x' - z') * (x + z) - (x' + z') * (x - z) == -2 * (x * z' - z * x')
  {
    assert (x' - z') * (x + z) == x' * x + x' * z - z' * x - z' * z;
    assert (x' + z') * (x - z) == x' * x - x' * z + z' * x - z' * z;
  }

  lemma {:induction false} DoubledSquare(m: int, x1: int)
    ensures (2 * m) * (2 * m) == 4 * Square(m)
    ensures (-2 * m) * (-2 * m) == 4 * Square(m)
    ensures x1 * (4 * Square(m)) == 4 * x1 * Square(m)
  {
  }

  /** The sum in factored form, as the ladder computes it. */
  lemma {:induction false} DiffAddFactors(x1: int, q: Proj, r: Proj)
    ensures var da, cb := (r.x - r.z) * (q.x + q.z), (r.x + r.z) * (q.x - q.z);
            && Cong(DiffAdd(x1, q, r).x, (da + cb) * (da + cb), P)
            && Cong(DiffAdd(x1, q, r).z, x1 * ((da - cb) * (da - cb)), P)
  {
    CongRefl(q.x, P);
    CongRefl(q.z, P);
    CongRefl(r.x, P);
    CongRefl(r.z, P);
    CongRefl(x1, P);
    var a, b := ModAdd(q.x, q.z), ModSub(q.x, q.z);
    var c, d := ModAdd(r.x, r.z), ModSub(r.x, r.z);
    AddCong(q.x, q.x, q.z, q.z);
    SubCong(q.x, q.x, q.z, q.z);
    AddCong(r.x, r.x, r.z, r.z);
    SubCong(r.x, r.x, r.z, r.z);
    var da', cb' := (r.x - r.z) * (q.x + q.z), (r.x + r.z) * (q.x - q.z);
    MulCong(d, r.x - r.z, a, q.x + q.z);
    MulCong(c, r.x + r.z, b, q.x - q.z);
    var da, cb := ModMul(d, a), ModMul(c, b);
    AddCong(da, da', cb, cb');
    SubCong(da, da', cb, cb');
    SquareCong(ModAdd(da, cb), da' + cb');
    SquareCong(ModSub(da, cb), da' - cb');
    MulCong(x1, x1, ModSquare(ModSub(da, cb)), (da' - cb') * (da' - cb'));
  }

  /** Differential addition as in the textbook: `4(XX' - ZZ')^2 : 4 x1 (XZ' - ZX')^2`. */
  lemma {:induction false} DiffAddCong(x1: int, q: Proj, r: Proj)
    ensures Cong(DiffAdd(x1, q, r).x, 4 * Square(q.x * r.x - q.z * r.z), P)
    ensures Cong(DiffAdd(x1, q, r).z, 4 * x1 * Square(q.x * r.z - q.z * r.x), P)
  {
    DiffAddFactors(x1, q, r);
    CrossSum(q.x, q.z, r.x, r.z);
    DoubledSquare(q.x * r.x - q.z * r.z, x1);
    DoubledSquare(q.x * r.z - q.z * r.x, x1);
  }

  /** Doubling in factored form, as the ladder computes it. */
  lemma {:induction false} DoubleFactors(q: Proj)
    ensures var s, t := q.x + q.z, q.x - q.z;
            && Cong(Double(q).x, (s * s) * (t * t), P)
            && Cong(Double(q).z, (s * s - t * t) * (s * s + A24 * (s * s - t * t)), P)
  {
    CongRefl(q.x, P);
    CongRefl(q.z, P);
    CongRefl(A24, P);
    var s, t := q.x + q.z, q.x - q.z;
    var a, b := ModAdd(q.x, q.z), ModSub(q.x, q.z);
    AddCong(q.x, q.x, q.z, q.z);
    SubCong(q.x, q.x, q.z, q.z);
    SquareCong(a, s);
    SquareCong(b, t);
    var aa, bb := ModSquare(a), ModSquare(b);
    var ss, tt := s * s, t * t;
    MulCong(aa, ss, bb, tt);
    SubCong(aa, ss, bb, tt);
    var e, e' := ModSub(aa, bb), ss - tt;
    MulCong(A24, A24, e, e');
    AddCong(aa, ss, ModMul(A24, e), A24 * e');
    MulCong(e, e', ModAdd(aa, ModMul(A24, e)), ss + A24 * e');
  }

  lemma {:induction false} DoublePolynomials(x: int, z: int)
    ensures var s, t := x + z, x - z;
            && (s * s) * (t * t) == Square(x * x - z * z)
            && s * s - t * t == 4 * (x * z)
            && s * s + A24 * (s * s - t * t) == x * x + A * (x * z) + z * z
  {
    var s, t := x + z, x - z;
    var xx, xz, zz := x * x, x * z, z * z;
    assert s * s == xx + 2 * xz + zz;
    assert t * t == xx - 2 * xz + zz;
    assert s * t == xx - zz;
    SquareOfProduct(s, t);
  }

  lemma {:induction false} SquareOfProduct(s: int, t: int)
    ensures (s * s) * (t * t) == Square(s * t)
  {
    assert (s * s) * (t * t) == s * (s * (t * t)) == s * ((s * t) * t) == (s * t) * (s * t);
  }

  /** Doubling as in the textbook, with the curve constant: `(X^2 - Z^2)^2 : 4XZ(X^2 + AXZ + Z^2)`. */
  lemma {:induction false} DoubleCong(q: Proj)
    ensures Cong(Double(q).x, Square(q.x * q.x - q.z * q.z), P)
    ensures Cong(Double(q).z, 4 * (q.x * q.z) * (q.x * q.x + A * (q.x * q.z) + q.z * q.z), P)
  {
    DoubleFactors(q);
    DoublePolynomials(q.x, q.z);
  }

  /** The sum does not depend on the order of the two points, which is what makes the deferred swap harmless. */
  lemma {:induction false} DiffAddSymmetric(x1: int, q: Proj, r: Proj)
    ensures DiffAdd(x1, q, r) == DiffAdd(x1, r, q)
  {
    DiffAddCong(x1, q, r);
    DiffAddCong(x1, r, q);
    var m, m' := q.x * r.x - q.z * r.z, r.x * q.x - r.z * q.z;
    var n, n' := q.x * r.z - q.z * r.x, r.x * q.z - r.z * q.x;
    SquareEven(n, n');
    DiffAddReduced(x1, q, r);
    DiffAddReduced(x1, r, q);
    SameResidue(DiffAdd(x1, q, r).x, DiffAdd(x1, r, q).x, 4 * Square(m));
    SameResidue(DiffAdd(x1, q, r).z, DiffAdd(x1, r, q).z, 4 * x1 * Square(n));
  }

  lemma {:induction false} SquareEven(n: int, n': int)
    requires n' == -n
    ensures Square(n) == Square(n')
  {
  }

  lemma {:induction false} SameResidue(a: int, b: int, c: int)
    requires Cong(a, c, P) && Cong(b, c, P)
    requires 0 <= a < P && 0 <= b < P
    ensures a == b
  {
    CongSym(b, c, P);
    CongTrans(a, c, b, P);
    CongEqual(a, b, P);
  }

  /** What the ladder computes from the final points: their affine coordinate, or an error at infinity. */
  ghost predicate LadderResult(q: Proj, r: Result<Bytes, Error>) {
    && (r.Err? <==> q.z == 0)
    && (r.Err? ==> r.error == InverseOfZero)
    && (r.Ok? ==> |r.value| == 32 && FromBytes(r.value) == ModMul(q.x, Normalize(Pow(q.z, P - 2))))
  }

  /** What the ladder returns for a scalar and a coordinate: the quotient at the end of the swap-free form. */
  ghost predicate LadderReturns(scalar: Bytes, uCoordinate: Bytes, r: Result<Bytes, Error>) {
    LadderResult(Steps(FromBytes(scalar), Normalize(FromBytes(uCoordinate)), 0).0, r)
  }

  /** The ladder with its deferred conditional swap ends in the same point as the swap-free one. */
  method MontgomeryLadder(scalar: Bytes, uCoordinate: Bytes) returns (r: Result<Bytes, Error>)
    ensures LadderReturns(scalar, uCoordinate, r)
  {
    var k := BytesToBigInt(scalar);
    var u := BytesToBigInt(uCoordinate);
    var x1 := Normalize(u);
    var x2, z2, x3, z3 := 1, 0, x1, 1;
    var swap := 0;
    for bitIndex := 255 downto 0
      invariant swap == 0 || swap == 1
      invariant Steps(k, x1, bitIndex) == Ordered(swap, Proj(x2, z2), Proj(x3, z3))
    {
      var kBit := Bit(k, bitIndex);
      if kBit != swap {
        x2, x3 := x3, x2;
        z2, z3 := z3, z2;
        swap := kBit;
      }
      StepAfterSwap(k, x1, bitIndex, Proj(x2, z2), Proj(x3, z3));
      x2, z2, x3, z3 := LadderStep(x1, x2, z2, x3, z3);
    }
    if swap == 1 {
      x2, x3 := x3, x2;
      z2, z3 := z3, z2;
    }
    r := ToAffine(x2, z2);
  }

  const BASE_POINT: Bytes := [9] + Zeros(31)

  /** Both keys have 32 bytes, and the first to fail that is the error. */
  method X25519ScalarMult(privateKey: Bytes, peerPublicKey: Bytes) returns (r: Result<Bytes, Error>)
    ensures |privateKey| != 32 ==> r == Err(WrongLength("Private key"))
    ensures |privateKey| == 32 && |peerPublicKey| != 32 ==> r == Err(WrongLength("Peer public key"))
    ensures |privateKey| == 32 && |peerPublicKey| == 32 ==>
      LadderReturns(privateKey, peerPublicKey, r)
  {
    if |privateKey| != 32 {
      return Err(WrongLength("Private key"));
    }
    if |peerPublicKey| != 32 {
      return Err(WrongLength("Peer public key"));
    }
    r := MontgomeryLadder(privateKey, peerPublicKey);
  }

  method X25519ScalarMultBase(privateKey: Bytes) returns (r: Result<Bytes, Error>)
    ensures |privateKey| != 32 ==> r == Err(WrongLength("Private key"))
    ensures |privateKey| == 32 ==> LadderReturns(privateKey, BASE_POINT, r)
  {
    if |privateKey| != 32 {
      return Err(WrongLength("Private key"));
    }
    r := MontgomeryLadder(privateKey, BASE_POINT);
  }

  lemma {:induction false} BasePointIs()
    ensures Normalize(FromBytes(BASE_POINT)) == 9
  {
    ZerosAre(31);
    assert BASE_POINT[1..] == Zeros(31);
  }

  lemma {:induction false} ZerosAre(n: nat)
    ensures FromBytes(Zeros(n)) == 0
  {
    if n > 0 {
      ZerosAre(n - 1);
      FromBytesSnoc(Zeros(n - 1), 0);
    }
  }

  /** The two points of the ladder in the order of the swap-free form. */
  function Ordered(swap: int, q: Proj, r: Proj): (Proj, Proj) {
    if swap == 0 then (q, r) else (r, q)
  }

  lemma {:induction false} StepAfterSwap(k: nat, x1: int, n: nat, q: Proj, r: Proj)
    requires n < 255 && Steps(k, x1, n + 1) == Ordered(Bit(k, n), q, r)
    ensures Steps(k, x1, n) == Ordered(Bit(k, n), Double(q), DiffAdd(x1, q, r))
  {
    DiffAddSymmetric(x1, q, r);
  }

  /** One turn of the ladder loop after its swap: doubles the first point and adds the second. */
  method LadderStep(x1: int, x2: int, z2: int, x3: int, z3: int) returns (x2': int, z2': int, x3': int, z3': int)
    ensures Proj(x2', z2') == Double(Proj(x2, z2))
    ensures Proj(x3', z3') == DiffAdd(x1, Proj(x2, z2), Proj(x3, z3))
  {
    var a := ModAdd(x2, z2);
    var aa := ModSquare(a);
    var b := ModSub(x2, z2);
    var bb := ModSquare(b);
    var e := ModSub(aa, bb);
    var c := ModAdd(x3, z3);
    var d := ModSub(x3, z3);
    var da := ModMul(d, a);
    var cb := ModMul(c, b);
    x3' := ModSquare(ModAdd(da, cb));
    z3' := ModMul(x1, ModSquare(ModSub(da, cb)));
    x2' := ModMul(aa, bb);
    z2' := ModMul(e, ModAdd(aa, ModMul(A24, e)));
  }

  /** The end of the ladder: the quotient of the final coordinates, unless the point is at infinity. */
  method ToAffine(x2: int, z2: int) returns (r: Result<Bytes, Error>)
    ensures LadderResult(Proj(x2, z2), r)
  {
    var inverse := ModInverse(z2);
    match inverse {
      case Err(e) => r := Err(e);
      case Ok(i) =>
        var result := ModMul(x2, i);
        InverseCanonical(i, z2);
        ModMulIs(x2, i);
        ReducedIff(result);
        WriteRead(result);
        var out := BigintToBytes(result);
        r := Ok(out[..]);
    }
  }

  lemma {:induction false} InverseCanonical(i: int, z: int)
    requires 0 <= i < P && Cong(i, Pow(z, P - 2), P)
    ensures i == Normalize(Pow(z, P - 2))
  {
    NormalizeIs(Pow(z, P - 2));
    SameResidue(i, Normalize(Pow(z, P - 2)), Pow(z, P - 2));
  }

  predicate Reduced(q: Proj) {
    0 <= q.x < P && 0 <= q.z < P
  }

  /** All points of the ladder are given by canonical representatives. */
  lemma {:induction false} StepsReduced(k: nat, x1: int, n: nat)
    requires n <= 255 && 0 <= x1 < P
    ensures Reduced(Steps(k, x1, n).0) && Reduced(Steps(k, x1, n).1)
    decreases 255 - n
  {
    if n < 255 {
      StepsReduced(k, x1, n + 1);
      var (q, r) := Steps(k, x1, n + 1);
      DoubleReduced(q);
      DoubleReduced(r);
      DiffAddReduced(x1, q, r);
    }
  }

  lemma {:induction false} DoubleReduced(q: Proj)
    ensures Reduced(Double(q))
  {
    var a := ModAdd(q.x, q.z);
    var aa := ModSquare(a);
    var b := ModSub(q.x, q.z);
    var bb := ModSquare(b);
    var e := ModSub(aa, bb);
    ModMulIs(aa, bb);
    ModMulIs(e, ModAdd(aa, ModMul(A24, e)));
  }

  lemma {:induction false} DiffAddReduced(x1: int, q: Proj, r: Proj)
    ensures Reduced(DiffAdd(x1, q, r))
  {
    var da := ModMul(ModSub(r.x, r.z), ModAdd(q.x, q.z));
    var cb := ModMul(ModAdd(r.x, r.z), ModSub(q.x, q.z));
    CongRefl(ModAdd(da, cb), P);
    SquareCong(ModAdd(da, cb), ModAdd(da, cb));
    ModMulIs(x1, ModSquare(ModSub(da, cb)));
  }
}
