/** What the X25519 ladder computes. */
module X25519Multiples {
  // The quotient of the projective coordinates of a multiple of the point, where multiples are defined
  // by halving the factor and not by its bit positions.

  import opened Basics
  import opened LittleEndian
  import opened ModArith
  import opened X25519

  /** The `n`-fold of the point with affine coordinate `x1`, by doubling and differential addition. */
  function Multiple(x1: int, n: nat): Proj {
    if n == 0 then Proj(1, 0)
    else if n == 1 then Proj(x1, 1)
    else if n % 2 == 0 then Double(Multiple(x1, n / 2))
    else DiffAdd(x1, Multiple(x1, n / 2), Multiple(x1, n / 2 + 1))
  }

  /** The number given by the `n` least significant bits of `k`. */
  function LowBits(k: nat, n: nat): nat {
    if n == 0 then 0 else k % 2 + 2 * LowBits(k / 2, n - 1)
  }

  // ---------- projective classes ----------

  ghost predicate Unit(l: int) {
    exists m :: Cong(l * m, 1, P)
  }

  ghost predicate Scaled(q: Proj, r: Proj, l: int) {
    Cong(q.x, l * r.x, P) && Cong(q.z, l * r.z, P)
  }

  /** Two pairs of coordinates of one projective class. */
  ghost predicate SamePoint(q: Proj, r: Proj) {
    exists l :: Unit(l) && Scaled(q, r, l)
  }

  lemma {:induction false} UnitMul(l: int, m: int)
    requires Unit(l) && Unit(m)
    ensures Unit(l * m)
  {
    var l' :| Cong(l * l', 1, P);
    var m' :| Cong(m * m', 1, P);
    CongMul(l * l', 1, m * m', 1, P);
    assert (l * l') * (m * m') == (l * m) * (l' * m') by {
      Interchange(l, l', m, m');
    }
    assert Cong((l * m) * (l' * m'), 1, P);
  }

  lemma {:induction false} Interchange(a: int, b: int, c: int, d: int)
    ensures (a * b) * (c * d) == (a * c) * (b * d)
  {
    assert (a * b) * (c * d) == a * (b * (c * d)) == a * (c * (b * d)) == (a * c) * (b * d);
  }

  lemma {:induction false} ScaleMul(a: int, a': int, l: int, b: int, b': int, m: int)
    requires Cong(a, l * a', P) && Cong(b, m * b', P)
    ensures Cong(a * b, (l * m) * (a' * b'), P)
  {
    CongMul(a, l * a', b, m * b', P);
    Interchange(l, a', m, b');
  }

  lemma {:induction false} ScaleAdd(a: int, a': int, b: int, b': int, l: int)
    requires Cong(a, l * a', P) && Cong(b, l * b', P)
    ensures Cong(a + b, l * (a' + b'), P) && Cong(a - b, l * (a' - b'), P)
  {
    CongAdd(a, l * a', b, l * b', P);
    CongSub(a, l * a', b, l * b', P);
    assert l * (a' + b') == l * a' + l * b' && l * (a' - b') == l * a' - l * b';
  }

  /** From `a` being congruent to `v`, `a'` to `v'` and `v` to `l * v'`, that `a` is congruent to `l * a'`. */
  lemma {:induction false} ScaleTrans(a: int, v: int, a': int, v': int, l: int)
    requires Cong(a, v, P) && Cong(a', v', P) && Cong(v, l * v', P)
    ensures Cong(a, l * a', P)
  {
    CongTrans(a, v, l * v', P);
    CongSym(a', v', P);
    CongRefl(l, P);
    CongMul(l, l, v', a', P);
    CongTrans(a, l * v', l * a', P);
  }

  /** Doubling depends only on the projective class of the point. */
  lemma {:induction false} DoubleScaled(q: Proj, r: Proj, l: int)
    requires Scaled(q, r, l)
    ensures Scaled(Double(q), Double(r), (l * l) * (l * l))
  {
    DoubleFactors(q);
    DoubleFactors(r);
    ScaleAdd(q.x, r.x, q.z, r.z, l);
    var s, t, s', t' := q.x + q.z, q.x - q.z, r.x + r.z, r.x - r.z;
    ScaleMul(s, s', l, s, s', l);
    ScaleMul(t, t', l, t, t', l);
    var ss, tt, ss', tt', ll := s * s, t * t, s' * s', t' * t', l * l;
    ScaleMul(ss, ss', ll, tt, tt', ll);
    ScaleTrans(Double(q).x, ss * tt, Double(r).x, ss' * tt', ll * ll);
    DoubledZScaled(ss, ss', tt, tt', ll);
    ScaleTrans(Double(q).z, (ss - tt) * (ss + A24 * (ss - tt)),
               Double(r).z, (ss' - tt') * (ss' + A24 * (ss' - tt')), ll * ll);
  }

  lemma {:induction false} DoubledZScaled(ss: int, ss': int, tt: int, tt': int, l: int)
    requires Cong(ss, l * ss', P) && Cong(tt, l * tt', P)
    ensures Cong((ss - tt) * (ss + A24 * (ss - tt)), (l * l) * ((ss' - tt') * (ss' + A24 * (ss' - tt'))), P)
  {
    ScaleAdd(ss, ss', tt, tt', l);
    var e, e' := ss - tt, ss' - tt';
    ScaleConst(e, e', l);
    ScaleAdd(ss, ss', A24 * e, A24 * e', l);
    ScaleMul(e, e', l, ss + A24 * e, ss' + A24 * e', l);
  }

  lemma {:induction false} ScaleConst(e: int, e': int, l: int)
    requires Cong(e, l * e', P)
    ensures Cong(A24 * e, l * (A24 * e'), P)
  {
    CongRefl(A24, P);
    CongMul(A24, A24, e, l * e', P);
  }

  /** Differential addition depends only on the projective classes of the two points. */
  lemma {:induction false} DiffAddScaled(x1: int, q: Proj, q': Proj, l: int, r: Proj, r': Proj, m: int)
    requires Scaled(q, q', l) && Scaled(r, r', m)
    ensures Scaled(DiffAdd(x1, q, r), DiffAdd(x1, q', r'), (m * l) * (m * l))
  {
    DiffAddFactors(x1, q, r);
    DiffAddFactors(x1, q', r');
    ScaleAdd(q.x, q'.x, q.z, q'.z, l);
    ScaleAdd(r.x, r'.x, r.z, r'.z, m);
    ScaleMul(r.x - r.z, r'.x - r'.z, m, q.x + q.z, q'.x + q'.z, l);
    ScaleMul(r.x + r.z, r'.x + r'.z, m, q.x - q.z, q'.x - q'.z, l);
    var da, cb := (r.x - r.z) * (q.x + q.z), (r.x + r.z) * (q.x - q.z);
    var da', cb' := (r'.x - r'.z) * (q'.x + q'.z), (r'.x + r'.z) * (q'.x - q'.z);
    var ml := m * l;
    ScaleAdd(da, da', cb, cb', ml);
    ScaleMul(da + cb, da' + cb', ml, da + cb, da' + cb', ml);
    ScaleMul(da - cb, da' - cb', ml, da - cb, da' - cb', ml);
    ScaleTrans(DiffAdd(x1, q, r).x, (da + cb) * (da + cb), DiffAdd(x1, q', r').x, (da' + cb') * (da' + cb'), ml * ml);
    var g, g' := (da - cb) * (da - cb), (da' - cb') * (da' - cb');
    CongRefl(x1, P);
    CongMul(x1, x1, g, (ml * ml) * g', P);
    assert x1 * ((ml * ml) * g') == (ml * ml) * (x1 * g') by {
      Rotate(x1, ml * ml, g');
    }
    ScaleTrans(DiffAdd(x1, q, r).z, x1 * g, DiffAdd(x1, q', r').z, x1 * g', ml * ml);
  }

  lemma {:induction false} Rotate(a: int, b: int, c: int)
    ensures a * (b * c) == b * (a * c)
  {
  }

  // ---------- the ladder computes multiples ----------

  lemma {:induction false} ShiftSucc(k: nat, n: nat)
    ensures Shift(k, n + 1) == Shift(k, n) / 2
  {
    if n > 0 {
      ShiftSucc(k / 2, n - 1);
    }
  }

  /** The bits of `k` from `n` up to 254, as a number. */
  function Prefix(k: nat, n: nat): nat
    requires n <= 255
  {
    LowBits(Shift(k, n), 255 - n)
  }

  lemma {:induction false} PrefixStep(k: nat, n: nat)
    requires n < 255
    ensures Prefix(k, n) == 2 * Prefix(k, n + 1) + Bit(k, n)
  {
    ShiftSucc(k, n);
  }

  /** The points reached after the bits 254 down to `n` are the multiples by their number and its successor. */
  ghost predicate AtMultiple(x1: int, m: nat, q: Proj, r: Proj) {
    SamePoint(q, Multiple(x1, m)) && SamePoint(r, Multiple(x1, m + 1))
  }

  lemma {:induction false} LadderMultiple(k: nat, x1: int, n: nat)
    requires n <= 255 && Unit(x1)
    ensures AtMultiple(x1, Prefix(k, n), Steps(k, x1, n).0, Steps(k, x1, n).1)
    decreases 255 - n
  {
    if n == 255 {
      SameSelf(Proj(1, 0));
      SameSelf(Proj(x1, 1));
    } else {
      LadderMultiple(k, x1, n + 1);
      PrefixStep(k, n);
      TurnOf(k, x1, n, Steps(k, x1, n + 1).0, Steps(k, x1, n + 1).1);
      LadderTurn(x1, Prefix(k, n + 1), Bit(k, n),
                 Steps(k, x1, n + 1).0, Steps(k, x1, n + 1).1, Steps(k, x1, n), Prefix(k, n));
    }
  }

  /** What the next bit makes of two points. */
  ghost predicate Turned(x1: int, bit: nat, q: Proj, r: Proj, s: (Proj, Proj)) {
    bit < 2 && s == if bit == 0 then (Double(q), DiffAdd(x1, q, r)) else (DiffAdd(x1, q, r), Double(r))
  }

  lemma {:induction false} TurnOf(k: nat, x1: int, n: nat, q: Proj, r: Proj)
    requires n < 255 && Steps(k, x1, n + 1) == (q, r)
    ensures Turned(x1, Bit(k, n), q, r, Steps(k, x1, n))
  {
  }

  /** From the points for `m` and `m + 1`, one turn gives those for `2 * m` or `2 * m + 1` and its successor. */
  lemma {:induction false} LadderTurn(x1: int, m: nat, bit: nat, q: Proj, r: Proj, s: (Proj, Proj), m': nat)
    requires Unit(x1) && AtMultiple(x1, m, q, r) && Turned(x1, bit, q, r, s) && m' == 2 * m + bit
    ensures AtMultiple(x1, m', s.0, s.1)
  {
    if bit == 0 {
      TurnedZero(x1, m, q, r, s.0, s.1, m');
    } else {
      TurnedOne(x1, m, q, r, s.0, s.1, m');
    }
  }

  lemma {:induction false} TurnedZero(x1: int, m: nat, q: Proj, r: Proj, first: Proj, second: Proj, m': nat)
    requires Unit(x1) && AtMultiple(x1, m, q, r) && m' == 2 * m
    requires first == Double(q) && second == DiffAdd(x1, q, r)
    ensures AtMultiple(x1, m', first, second)
  {
    SumStep(x1, m, q, r);
    DoubleStep(x1, m, q);
  }

  lemma {:induction false} TurnedOne(x1: int, m: nat, q: Proj, r: Proj, first: Proj, second: Proj, m': nat)
    requires Unit(x1) && AtMultiple(x1, m, q, r) && m' == 2 * m + 1
    requires first == DiffAdd(x1, q, r) && second == Double(r)
    ensures AtMultiple(x1, m', first, second)
  {
    SumStep(x1, m, q, r);
    DoubleNext(x1, m, r, m' + 1);
  }

  lemma {:induction false} DoubleNext(x1: int, m: nat, r: Proj, twice: nat)
    requires SamePoint(r, Multiple(x1, m + 1)) && twice == 2 * (m + 1)
    ensures SamePoint(Double(r), Multiple(x1, twice))
  {
    DoubleStep(x1, m + 1, r);
  }

  lemma {:induction false} MultipleEven(x1: int, m: nat)
    requires m >= 1
    ensures Multiple(x1, 2 * m) == Double(Multiple(x1, m))
  {
    assert 2 * m / 2 == m;
  }

  lemma {:induction false} MultipleOdd(x1: int, m: nat)
    requires m >= 1
    ensures Multiple(x1, 2 * m + 1) == DiffAdd(x1, Multiple(x1, m), Multiple(x1, m + 1))
  {
    assert (2 * m + 1) / 2 == m;
  }

  lemma {:induction false} SameBy(q: Proj, r: Proj, l: int)
    requires Unit(l) && Scaled(q, r, l)
    ensures SamePoint(q, r)
  {
  }

  lemma {:induction false} SameSelf(q: Proj)
    ensures SamePoint(q, q)
  {
    CongRefl(q.x, P);
    CongRefl(q.z, P);
    CongRefl(1, P);
    assert Cong(1 * 1, 1, P);
    assert Scaled(q, q, 1);
  }

  lemma {:induction false} SameTrans(q: Proj, r: Proj, s: Proj)
    requires SamePoint(q, r) && SamePoint(r, s)
    ensures SamePoint(q, s)
  {
    var l :| Unit(l) && Scaled(q, r, l);
    var m :| Unit(m) && Scaled(r, s, m);
    UnitMul(l, m);
    CongRefl(l, P);
    CongMul(l, l, r.x, m * s.x, P);
    CongMul(l, l, r.z, m * s.z, P);
    assert l * (m * s.x) == (l * m) * s.x && l * (m * s.z) == (l * m) * s.z;
    CongTrans(q.x, l * r.x, (l * m) * s.x, P);
    CongTrans(q.z, l * r.z, (l * m) * s.z, P);
    assert Scaled(q, s, l * m);
  }

  lemma {:induction false} DoubleStep(x1: int, m: nat, q: Proj)
    requires SamePoint(q, Multiple(x1, m))
    ensures SamePoint(Double(q), Multiple(x1, 2 * m))
  {
    var r := Multiple(x1, m);
    DoubleSame(q, r);
    if m == 0 {
      DoubleInfinity(r);
      SameTrans(Double(q), Double(r), r);
    } else {
      MultipleEven(x1, m);
    }
  }

  lemma {:induction false} DoubleSame(q: Proj, r: Proj)
    requires SamePoint(q, r)
    ensures SamePoint(Double(q), Double(r))
  {
    var l :| Unit(l) && Scaled(q, r, l);
    DoubleScaled(q, r, l);
    UnitMul(l, l);
    UnitMul(l * l, l * l);
    SameBy(Double(q), Double(r), (l * l) * (l * l));
  }

  lemma {:induction false} DiffAddSame(x1: int, q: Proj, q': Proj, r: Proj, r': Proj)
    requires SamePoint(q, q') && SamePoint(r, r')
    ensures SamePoint(DiffAdd(x1, q, r), DiffAdd(x1, q', r'))
  {
    var l :| Unit(l) && Scaled(q, q', l);
    var m :| Unit(m) && Scaled(r, r', m);
    DiffAddScaled(x1, q, q', l, r, r', m);
    UnitMul(m, l);
    UnitMul(m * l, m * l);
    SameBy(DiffAdd(x1, q, r), DiffAdd(x1, q', r'), (m * l) * (m * l));
  }

  /** Doubling the point at infinity gives the point at infinity. */
  lemma {:induction false} DoubleInfinity(q: Proj)
    requires q.x == 1 && q.z == 0
    ensures SamePoint(Double(q), q)
  {
    DoubleCong(q);
    CongRefl(1, P);
    assert Cong(1 * 1, 1, P);
    InfinityPolynomials(q.x, q.z);
    SameBy(Double(q), q, 1);
  }

  lemma {:induction false} InfinityPolynomials(x: int, z: int)
    requires x == 1 && z == 0
    ensures Square(x * x - z * z) == 1
    ensures 4 * (x * z) * (x * x + A * (x * z) + z * z) == 0
  {
    assert x * z == 0 && x * x == 1 && z * z == 0;
  }

  lemma {:induction false} SumStep(x1: int, m: nat, q: Proj, r: Proj)
    requires Unit(x1) && AtMultiple(x1, m, q, r)
    ensures SamePoint(DiffAdd(x1, q, r), Multiple(x1, 2 * m + 1))
  {
    var q', r' := Multiple(x1, m), Multiple(x1, m + 1);
    DiffAddSame(x1, q, q', r, r');
    if m == 0 {
      AddInfinity(x1, q', r');
      SameTrans(DiffAdd(x1, q, r), DiffAdd(x1, q', r'), r');
    } else {
      MultipleOdd(x1, m);
    }
  }

  /** Adding the point at infinity gives the point itself, scaled by `4 * x1`. */
  lemma {:induction false} AddInfinity(x1: int, q: Proj, r: Proj)
    requires Unit(x1) && q.x == 1 && q.z == 0 && r.x == x1 && r.z == 1
    ensures SamePoint(DiffAdd(x1, q, r), r)
  {
    DiffAddCong(x1, q, r);
    FourIsUnit();
    UnitMul(4, x1);
    assert q.x * r.x - q.z * r.z == x1 && q.x * r.z - q.z * r.x == 1;
    assert 4 * Square(x1) == (4 * x1) * x1 && 4 * x1 * Square(1) == (4 * x1) * 1;
    SameBy(DiffAdd(x1, q, r), r, 4 * x1);
  }

  lemma {:induction false} FourIsUnit()
    ensures Unit(4)
  {
    var inverse := (3 * P + 1) / 4;
    CongBy(4 * inverse, 1, P, 3);
    assert Cong(4 * inverse, 1, P);
  }

  // ---------- results ----------

  lemma {:induction false} UnitCancel(l: int, a: int, b: int)
    requires Unit(l) && Cong(l * a, l * b, P)
    ensures Cong(a, b, P)
  {
    var m :| Cong(l * m, 1, P);
    CongRefl(m, P);
    CongMul(m, m, l * a, l * b, P);
    UnitTimes(l, m, a);
    UnitTimes(l, m, b);
    CongSym(m * (l * a), a, P);
    CongTrans(a, m * (l * a), m * (l * b), P);
    CongTrans(a, m * (l * b), b, P);
  }

  lemma {:induction false} UnitTimes(l: int, m: int, a: int)
    requires Cong(l * m, 1, P)
    ensures Cong(m * (l * a), a, P)
  {
    CongRefl(a, P);
    CongMul(l * m, 1, a, a, P);
    assert (l * m) * a == m * (l * a);
  }

  /** With a prime modulus every nonzero field element is a unit. */
  lemma {:induction false} NonzeroIsUnit(v: int)
    requires IsPrime(P) && 0 < v < P
    ensures Unit(v)
  {
    DividesMod(P, v);
    FermatInverse(P, v);
  }

  /** The result of the ladder times the final `z` is the final `x`. */
  lemma {:induction false} ResultIsQuotient(q: Proj, r: Result<Bytes, Error>)
    requires IsPrime(P) && Reduced(q) && LadderResult(q, r) && r.Ok?
    ensures Cong(FromBytes(r.value) * q.z, q.x, P) && 0 <= FromBytes(r.value) < P
  {
    var i := Normalize(Pow(q.z, P - 2));
    NormalizeIs(Pow(q.z, P - 2));
    InverseIsInverse(q.z, i);
    ModMulIs(q.x, i);
    QuotientTimes(q.x, q.z, i, FromBytes(r.value));
  }

  lemma {:induction false} QuotientTimes(x: int, z: int, i: int, v: int)
    requires Cong(z * i, 1, P) && Cong(v, x * i, P)
    ensures Cong(v * z, x, P)
  {
    CongRefl(z, P);
    CongMul(v, x * i, z, z, P);
    assert (x * i) * z == x * (z * i);
    CongRefl(x, P);
    CongMul(x, x, z * i, 1, P);
    CongTrans(v * z, x * (z * i), x, P);
  }

  lemma {:induction false} SameResult(q: Proj, m: Proj, v: int)
    requires SamePoint(q, m) && Cong(v * q.z, q.x, P)
    ensures Cong(v * m.z, m.x, P)
  {
    var l :| Unit(l) && Scaled(q, m, l);
    CongRefl(v, P);
    CongMul(v, v, q.z, l * m.z, P);
    CongSym(v * q.z, v * (l * m.z), P);
    assert v * (l * m.z) == l * (v * m.z);
    CongTrans(l * (v * m.z), v * q.z, q.x, P);
    CongTrans(l * (v * m.z), q.x, l * m.x, P);
    UnitCancel(l, v * m.z, m.x);
  }

  lemma {:induction false} SameInfinity(q: Proj, m: Proj)
    requires SamePoint(q, m) && Reduced(q)
    ensures q.z == 0 <==> Divides(P, m.z)
  {
    var l :| Unit(l) && Scaled(q, m, l);
    if q.z == 0 {
      CongSym(q.z, l * m.z, P);
      UnitCancel(l, m.z, 0);
    }
    if Divides(P, m.z) {
      CongRefl(l, P);
      CongMul(l, l, m.z, 0, P);
      CongTrans(q.z, l * m.z, 0, P);
      CongEqual(q.z, 0, P);
    }
  }

  /**
   What X25519 returns, for every scalar and every coordinate that is not a multiple of `P`: the
   quotient `x / z` of the multiple of the point by the low 255 bits of the scalar, in canonical
   form, and an error exactly when that multiple is the point at infinity.
   */
  lemma {:induction false} LadderTheorem(scalar: Bytes, uCoordinate: Bytes, r: Result<Bytes, Error>)
    requires IsPrime(P) && !Divides(P, FromBytes(uCoordinate))
    ensures LadderReturns(scalar, uCoordinate, r) ==>
              var m := Multiple(Normalize(FromBytes(uCoordinate)), LowBits(FromBytes(scalar), 255));
              && (r.Err? <==> Divides(P, m.z))
              && (r.Ok? ==> Cong(FromBytes(r.value) * m.z, m.x, P) && 0 <= FromBytes(r.value) < P)
  {
    if LadderReturns(scalar, uCoordinate, r) {
      var k, x1 := FromBytes(scalar), Normalize(FromBytes(uCoordinate));
      NonzeroNormal(FromBytes(uCoordinate));
      NonzeroIsUnit(x1);
      LadderPoint(k, x1);
      ResultOfPoint(Steps(k, x1, 0).0, Multiple(x1, LowBits(k, 255)), r);
    }
  }

  lemma {:induction false} NonzeroNormal(u: int)
    requires !Divides(P, u)
    ensures 0 < Normalize(u) < P
  {
    NormalizeIs(u);
    CongSym(Normalize(u), u, P);
  }

  lemma {:induction false} LadderPoint(k: nat, x1: int)
    requires Unit(x1) && 0 <= x1 < P
    ensures SamePoint(Steps(k, x1, 0).0, Multiple(x1, LowBits(k, 255)))
    ensures Reduced(Steps(k, x1, 0).0)
  {
    LadderMultiple(k, x1, 0);
    StepsReduced(k, x1, 0);
    assert Prefix(k, 0) == LowBits(k, 255);
  }

  lemma {:induction false} ResultOfPoint(q: Proj, m: Proj, r: Result<Bytes, Error>)
    requires IsPrime(P) && Reduced(q) && SamePoint(q, m) && LadderResult(q, r)
    ensures r.Err? <==> Divides(P, m.z)
    ensures r.Ok? ==> Cong(FromBytes(r.value) * m.z, m.x, P) && 0 <= FromBytes(r.value) < P
  {
    SameInfinity(q, m);
    if r.Ok? {
      ResultIsQuotient(q, r);
      SameResult(q, m, FromBytes(r.value));
    }
  }

  /** A coordinate that is a multiple of `P` always gives an error, where section 5 of RFC 7748 gives 0. */
  lemma {:induction false} ZeroCoordinate(k: nat, n: nat)
    requires n <= 255
    ensures Steps(k, 0, n).0.z == 0
    decreases 255 - n
  {
    if n < 255 {
      ZeroCoordinate(k, n + 1);
      var (q, r) := Steps(k, 0, n + 1);
      assert Double(q).z == 0 by {
        DoubleOfInfinity(q);
      }
      var da, cb := ModMul(ModSub(r.x, r.z), ModAdd(q.x, q.z)), ModMul(ModAdd(r.x, r.z), ModSub(q.x, q.z));
      ZeroTimes(ModSquare(ModSub(da, cb)));
    }
  }

  lemma {:induction false} DoubleOfInfinity(q: Proj)
    requires q.z == 0
    ensures Double(q).z == 0
  {
    var aa := ModSquare(ModAdd(q.x, q.z));
    assert ModSub(aa, aa) == 0;
    ZeroTimes(ModAdd(aa, ModMul(A24, 0)));
  }

  lemma {:induction false} ZeroTimes(v: int)
    ensures ModMul(0, v) == 0
  {
    TimesIs(0, v);
  }

  lemma {:induction false} ZeroCoordinateFails(scalar: Bytes, uCoordinate: Bytes, r: Result<Bytes, Error>)
    requires Divides(P, FromBytes(uCoordinate))
    ensures LadderReturns(scalar, uCoordinate, r) ==> r == Err(InverseOfZero)
  {
    var u := FromBytes(uCoordinate);
    NormalizeIs(u);
    CongTrans(Normalize(u), u, 0, P);
    CongEqual(Normalize(u), 0, P);
    ZeroCoordinate(FromBytes(scalar), 0);
  }

  /**
   Section 5 of RFC 7748 clears the top bit of the coordinate and this ladder does not: the two
   read the same field element exactly when that bit is clear already.
   */
  lemma {:induction false} TopBit(uCoordinate: Bytes)
    requires |uCoordinate| == 32
    ensures var masked := uCoordinate[31 := uCoordinate[31] % 128];
            Cong(FromBytes(uCoordinate), FromBytes(masked), P) <==> uCoordinate[31] < 128
  {
    TopBitValue(uCoordinate);
    var v := FromBytes(uCoordinate[31 := uCoordinate[31] % 128]);
    if uCoordinate[31] < 128 {
      CongRefl(v, P);
    } else {
      NineteenIsNotZero(v);
    }
  }

  lemma {:induction false} TopBitValue(uCoordinate: Bytes)
    requires |uCoordinate| == 32
    ensures FromBytes(uCoordinate)
            == FromBytes(uCoordinate[31 := uCoordinate[31] % 128]) + if uCoordinate[31] < 128 then 0 else P + 19
  {
    var low, top := uCoordinate[..31], uCoordinate[31];
    assert uCoordinate == low + [top] && uCoordinate[31 := top % 128] == low + [top % 128];
    FromBytesSnoc(low, top);
    FromBytesSnoc(low, top % 128);
    TopParts(top, Pow256(|low|));
    PowerOfTop();
  }

  lemma {:induction false} TopParts(top: nat, weight: nat)
    requires top < 256
    ensures weight * top == weight * (top % 128) + if top < 128 then 0 else 128 * weight
  {
    assert top == top % 128 + if top < 128 then 0 else 128;
  }

  lemma {:induction false} NineteenIsNotZero(v: int)
    ensures !Cong(v + (P + 19), v, P)
  {
    if Cong(v + (P + 19), v, P) {
      var k := CongGives(v + (P + 19), v, P);
      assert false;
    }
  }

  lemma {:induction false} PowerOfTop()
    ensures 128 * Pow256(31) == P + 19
  {
    PFits();
    assert Pow256(32) == 256 * Pow256(31);
  }
}
