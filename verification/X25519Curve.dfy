/** The formulas of the X25519 ladder and the group law. */
module X25519Curve {
  // On the curve `y^2 = x^3 + A x^2 + x`, doubling gives the x-coordinate of the tangent construction, and
  // differential addition that of the chord construction, given the x-coordinate of the difference.

  import opened ModArith
  import opened X25519

  function Squared(v: int): int { Times(v, v) }

  /** The right-hand side of the curve equation. */
  function CurveSide(x: int): int { Times(x, Squared(x) + A * x + 1) }

  ghost predicate OnCurve(x: int, y: int) {
    Cong(Squared(y), CurveSide(x), P)
  }

  /** The x-coordinate of the third point on the line of this slope through points with x-coordinates `x` and `x'`. */
  function LineX(slope: int, x: int, x': int): int {
    Squared(slope) - (A + x + x')
  }

  /** The slope of the chord, given the inverse `d` of the distance `x' - x`. */
  function ChordSlope(y: int, y': int, d: int): int { Times(y' - y, d) }

  /** The slope of the tangent, given the inverse `d` of `2 * y`. */
  function TangentSlope(x: int, d: int): int { Times(3 * Squared(x) + 2 * A * x + 1, d) }

  // ---------- polynomial identities ----------

  function Cubic(x: int): int { x * (x * x + A * x + 1) }

  /** The symmetric part of the sum and the difference of two points. */
  function Middle(x: int, x': int): int {
    (x + x') * (1 + x * x') + 2 * A * (x * x')
  }

  lemma {:induction false} MiddleIdentity(x: int, x': int)
    ensures Cubic(x) + Cubic(x') - (A + x + x') * Square(x' - x) == Middle(x, x')
  {
    MiddlePolynomial(x, x', A);
  }

  lemma {:induction false} MiddlePolynomial(x: int, x': int, a: int)
    ensures x * (x * x + a * x + 1) + x' * (x' * x' + a * x' + 1) - (a + x + x') * ((x' - x) * (x' - x))
            == (x + x') * (1 + x * x') + 2 * a * (x * x')
  {
  }

  /** The x-coordinates of sum and difference multiply to a square, cleared of denominators. */
  lemma {:induction false} ProductIdentity(x: int, x': int)
    ensures Squared(Middle(x, x')) - 4 * Times(Cubic(x), Cubic(x')) == Times(Square(x' - x), Square(x * x' - 1))
  {
    var s, p := x + x', x * x';
    var g := (p * p + s * s - 2 * p + 1) + A * (p * s + s) + A * A * p;
    TimesIs(Middle(x, x'), Middle(x, x'));
    TimesIs(Cubic(x), Cubic(x'));
    TimesIs(Square(x' - x), Square(x * x' - 1));
    CubicProduct(x, x', g);
    assert Middle(x, x') == s * (1 + p) + A * (2 * p);
    SumSquares(x, x');
    SymmetricIdentity(s, p, A, g);
  }

  lemma {:induction false} CubicProduct(x: int, x': int, g: int)
    requires var s, p := x + x', x * x'; g == (p * p + s * s - 2 * p + 1) + A * (p * s + s) + A * A * p
    ensures 4 * (Cubic(x) * Cubic(x')) == 4 * (x * x') * g
  {
    var f, f' := x * x + A * x + 1, x' * x' + A * x' + 1;
    FactorProduct(x, x', x + x', x * x', A);
    SumSquares(x, x');
    assert f * f' == g;
    FourSwap(x, f, x', f');
  }

  lemma {:induction false} FourSwap(x: int, f: int, x': int, f': int)
    ensures 4 * ((x * f) * (x' * f')) == 4 * (x * x') * (f * f')
  {
    Swap(x, f, x', f');
  }

  lemma {:induction false} SumSquares(x: int, x': int)
    ensures x * x + x' * x' == (x + x') * (x + x') - 2 * (x * x')
    ensures Square(x' - x) == (x + x') * (x + x') - 4 * (x * x')
  {
  }

  lemma {:induction false} Swap(x: int, f: int, x': int, f': int)
    ensures (x * f) * (x' * f') == (x * x') * (f * f')
  {
  }

  lemma {:induction false} FactorProduct(x: int, x': int, s: int, p: int, a: int)
    requires s == x + x' && p == x * x'
    ensures (x * x + a * x + 1) * (x' * x' + a * x' + 1)
            == p * p + a * (p * s) + (x * x + x' * x') + a * a * p + a * s + 1
  {
    ProductOfSquares(x, x');
    CrossTerms(x, x', a);
    ProductOfMultiples(x, x', a);
    Distribute(a, x, x', 0);
    Factors(x * x, a * x, x' * x', a * x', p * p, a * (p * s), a * a * p, a * s);
  }

  /** The product of two factors, from the products of their terms. */
  lemma {:induction false} Factors(u: int, b: int, v: int, c: int, uv: int, cross: int, bc: int, sum: int)
    requires u * v == uv && u * c + b * v == cross && b * c == bc && b + c == sum
    ensures (u + b + 1) * (v + c + 1) == uv + cross + (u + v) + bc + sum + 1
  {
    SixTerms(u, b, v, c);
  }

  lemma {:induction false} ProductOfSquares(x: int, x': int)
    ensures (x * x) * (x' * x') == (x * x') * (x * x')
  {
  }

  lemma {:induction false} CrossTerms(x: int, x': int, a: int)
    ensures (x * x) * (a * x') + (a * x) * (x' * x') == a * ((x * x') * (x + x'))
  {
  }

  lemma {:induction false} ProductOfMultiples(x: int, x': int, a: int)
    ensures (a * x) * (a * x') == a * a * (x * x')
  {
  }

  lemma {:induction false} SixTerms(u: int, b: int, v: int, c: int)
    ensures (u + b + 1) * (v + c + 1) == u * v + u * c + u + b * v + b * c + b + v + c + 1
  {
  }

  lemma {:induction false} SymmetricIdentity(s: int, p: int, a: int, g: int)
    requires g == (p * p + s * s - 2 * p + 1) + a * (p * s + s) + a * a * p
    ensures (s * (1 + p) + a * (2 * p)) * (s * (1 + p) + a * (2 * p)) - 4 * p * g == (s * s - 4 * p) * Square(p - 1)
  {
    BinomialSquare(s * (1 + p), 2 * p, a);
    ConstantPart(s, p);
    LinearPart(s, p, a);
    Distribute(4 * p, p * p + s * s - 2 * p + 1, a * (p * s + s), a * a * p);
  }

  lemma {:induction false} BinomialSquare(m: int, n: int, a: int)
    ensures (m + a * n) * (m + a * n) == m * m + 2 * a * (m * n) + a * a * (n * n)
  {
  }

  lemma {:induction false} ConstantPart(s: int, p: int)
    ensures (s * (1 + p)) * (s * (1 + p)) - 4 * p * (p * p + s * s - 2 * p + 1) == (s * s - 4 * p) * ((p - 1) * (p - 1))
  {
  }

  lemma {:induction false} LinearPart(s: int, p: int, a: int)
    ensures 2 * a * ((s * (1 + p)) * (2 * p)) == 4 * p * (a * (p * s + s))
    ensures a * a * ((2 * p) * (2 * p)) == 4 * p * (a * a * p)
  {
  }

  lemma {:induction false} Distribute(k: int, x: int, y: int, z: int)
    ensures k * (x + y + z) == k * x + k * y + k * z
  {
  }

  lemma {:induction false} Regroup(n: int, d: int, e: int)
    ensures (n * n) * ((d * e) * (d * e)) == (e * e) * ((n * d) * (n * d))
  {
  }

  lemma {:induction false} TangentPolynomial(x: int, a: int)
    ensures (3 * x * x + 2 * a * x + 1) * (3 * x * x + 2 * a * x + 1) - 4 * (x * (x * x + a * x + 1)) * (a + 2 * x)
            == (x * x - 1) * (x * x - 1)
  {
  }

  // ---------- chords ----------

  /** With `d` the inverse of `e`, multiplying by the square of `e` clears the denominator of a slope. */
  lemma {:induction false} ClearDenominator(n: int, d: int, e: int, c: int)
    requires Cong(d * e, 1, P)
    ensures Cong((e * e) * ((n * d) * (n * d) - c), n * n - c * (e * e), P)
  {
    CongMul(d * e, 1, d * e, 1, P);
    CongRefl(n * n, P);
    CongMul(n * n, n * n, (d * e) * (d * e), 1, P);
    Regroup(n, d, e);
    CongRefl(c * (e * e), P);
    CongSub((n * n) * ((d * e) * (d * e)), n * n, c * (e * e), c * (e * e), P);
    TimesDifference(e * e, (n * d) * (n * d), c);
  }

  lemma {:induction false} TimesDifference(k: int, a: int, b: int)
    ensures k * (a - b) == k * a - b * k
  {
  }

  lemma {:induction false} CurveSideIs(x: int)
    ensures CurveSide(x) == Cubic(x)
  {
    TimesIs(x, x);
    TimesIs(x, x * x + A * x + 1);
  }

  /** The point with the opposite second coordinate. */
  lemma {:induction false} Opposite(x: int, y: int)
    ensures Squared(-y) == Squared(y) && (OnCurve(x, y) ==> OnCurve(x, -y))
  {
    TimesIs(y, y);
    TimesIs(-y, -y);
  }

  /** The x-coordinate of the sum of two points, times the square of their distance. */
  lemma {:induction false} ChordTimes(x: int, y: int, x': int, y': int, d: int, s: int)
    requires OnCurve(x, y) && OnCurve(x', y') && Cong(Times(d, x' - x), 1, P)
    requires s == LineX(ChordSlope(y, y', d), x, x')
    ensures Cong(Times(Squared(x' - x), s), Middle(x, x') - 2 * Times(y, y'), P)
  {
    var e, n := x' - x, y' - y;
    var c, m := A + x + x', n * d;
    TimesIs(d, e);
    TimesIs(n, d);
    TimesIs(m, m);
    TimesIs(e, e);
    TimesIs(e * e, s);
    TimesIs(y, y');
    ClearDenominator(n, d, e, c);
    SquaresAdd(x, y, x', y');
    ChordValue(y, y', Cubic(x) + Cubic(x'), c * (e * e));
    MiddleIdentity(x, x');
    CongTrans((e * e) * (m * m - c), n * n - c * (e * e), Middle(x, x') - 2 * (y * y'), P);
  }

  lemma {:induction false} SquaresAdd(x: int, y: int, x': int, y': int)
    requires OnCurve(x, y) && OnCurve(x', y')
    ensures Cong(y * y, Cubic(x), P) && Cong(y' * y', Cubic(x'), P)
    ensures Cong(y * y + y' * y', Cubic(x) + Cubic(x'), P)
  {
    TimesIs(y, y);
    TimesIs(y', y');
    CurveSideIs(x);
    CurveSideIs(x');
    CongAdd(y * y, Cubic(x), y' * y', Cubic(x'), P);
  }

  lemma {:induction false} ChordValue(y: int, y': int, f: int, k: int)
    requires Cong(y * y + y' * y', f, P)
    ensures Cong((y' - y) * (y' - y) - k, f - k - 2 * (y * y'), P)
  {
    var rest := 2 * (y * y') + k;
    CongRefl(rest, P);
    CongSub(y * y + y' * y', f, rest, rest, P);
    assert (y' - y) * (y' - y) == y * y + y' * y' - 2 * (y * y');
  }

  /**
   The sum and the difference of two curve points with different x-coordinates, by the chord
   construction: their x-coordinates `s` and `t` satisfy `s t (x' - x)^2 = (x x' - 1)^2`.
   */
  lemma {:induction false} SumTimesDifference(x: int, y: int, x': int, y': int, d: int, s: int, t: int)
    requires OnCurve(x, y) && OnCurve(x', y') && Cong(Times(d, x' - x), 1, P)
    requires s == LineX(ChordSlope(y, y', d), x, x') && t == LineX(ChordSlope(-y, y', d), x, x')
    ensures Cong(Times(Times(s, t), Squared(x' - x)), Squared(Times(x, x') - 1), P)
  {
    var e, m, w, q := Square(x' - x), Middle(x, x'), y * y', Square(x * x' - 1);
    Opposite(x, y);
    ChordTimes(x, y, x', y', d, s);
    ChordTimes(x, -y, x', y', d, t);
    ProductsAre(x, y, x', y', d, s, t);
    assert Cong(e * s, m - 2 * w, P) && Cong(e * t, m + 2 * w, P);
    CongMul(e * s, m - 2 * w, e * t, m + 2 * w, P);
    ProductOfSides(x, y, x', y', m);
    CongTrans((e * s) * (e * t), (m - 2 * w) * (m + 2 * w), e * q, P);
    RegroupDistance(e, s, t);
    CancelDistance(s * t, x' - x, d, q, (e * s) * (e * t));
  }

  /** The products of the statement above, as products. */
  lemma {:induction false} ProductsAre(x: int, y: int, x': int, y': int, d: int, s: int, t: int)
    ensures Squared(x' - x) == Square(x' - x) && Times(d, x' - x) == d * (x' - x)
    ensures Times(Squared(x' - x), s) == Square(x' - x) * s && Times(Squared(x' - x), t) == Square(x' - x) * t
    ensures Times(y, y') == y * y' && Times(-y, y') == -(y * y')
    ensures Times(Times(s, t), Squared(x' - x)) == (s * t) * Square(x' - x)
    ensures Squared(Times(x, x') - 1) == Square(x * x' - 1)
  {
    TimesIs(x' - x, x' - x);
    TimesIs(d, x' - x);
    TimesIs(Square(x' - x), s);
    TimesIs(Square(x' - x), t);
    TimesIs(y, y');
    TimesIs(-y, y');
    TimesIs(s, t);
    TimesIs(s * t, Square(x' - x));
    TimesIs(x, x');
    TimesIs(x * x' - 1, x * x' - 1);
  }

  lemma {:induction false} RegroupDistance(e: int, s: int, t: int)
    ensures (e * s) * (e * t) == e * (e * (s * t))
  {
  }

  lemma {:induction false} ProductOfSides(x: int, y: int, x': int, y': int, m: int)
    requires OnCurve(x, y) && OnCurve(x', y') && m == Middle(x, x')
    ensures Cong((m - 2 * (y * y')) * (m + 2 * (y * y')), Square(x' - x) * Square(x * x' - 1), P)
  {
    SquaresAdd(x, y, x', y');
    CongMul(y * y, Cubic(x), y' * y', Cubic(x'), P);
    CongRefl(4, P);
    CongMul(4, 4, (y * y) * (y' * y'), Cubic(x) * Cubic(x'), P);
    CongRefl(m * m, P);
    CongSub(m * m, m * m, 4 * ((y * y) * (y' * y')), 4 * (Cubic(x) * Cubic(x')), P);
    TimesIs(m, m);
    TimesIs(Cubic(x), Cubic(x'));
    TimesIs(Square(x' - x), Square(x * x' - 1));
    ProductIdentity(x, x');
    DifferenceOfSquares(m, y, y');
  }

  lemma {:induction false} DifferenceOfSquares(m: int, y: int, y': int)
    ensures (m - 2 * (y * y')) * (m + 2 * (y * y')) == m * m - 4 * ((y * y) * (y' * y'))
  {
    assert (y * y') * (y * y') == (y * y) * (y' * y');
  }

  lemma {:induction false} CancelDistance(v: int, e: int, d: int, r: int, ev: int)
    requires Cong(d * e, 1, P)
    requires ev == Square(e) * (Square(e) * v) && Cong(ev, Square(e) * r, P)
    ensures Cong(v * Square(e), r, P)
  {
    var q, dd := Square(e), Square(d);
    CongMul(d * e, 1, d * e, 1, P);
    assert (d * e) * (d * e) == dd * q;
    CongRefl(dd, P);
    CongMul(dd, dd, ev, q * r, P);
    CongRefl(q * v, P);
    CongMul(dd * q, 1, q * v, q * v, P);
    assert (dd * q) * (q * v) == dd * ev;
    CongRefl(r, P);
    CongMul(dd * q, 1, r, r, P);
    assert (dd * q) * r == dd * (q * r);
    CongSym(dd * ev, q * v, P);
    CongTrans(q * v, dd * ev, dd * (q * r), P);
    CongTrans(q * v, dd * (q * r), r, P);
  }

  /**
   Differential addition is addition on the curve: given the x-coordinate of the difference of
   two points, the quotient of the result is the x-coordinate of their sum.
   */
  lemma {:induction false} DiffAddIsChord(x: int, y: int, x': int, y': int, d: int)
    requires OnCurve(x, y) && OnCurve(x', y') && Cong(Times(d, x' - x), 1, P)
    ensures var s, t := LineX(ChordSlope(y, y', d), x, x'), LineX(ChordSlope(-y, y', d), x, x');
            var r := DiffAdd(t, Proj(x', 1), Proj(x, 1));
            Cong(Times(r.z, s), r.x, P)
  {
    var s, t := LineX(ChordSlope(y, y', d), x, x'), LineX(ChordSlope(-y, y', d), x, x');
    var r := DiffAdd(t, Proj(x', 1), Proj(x, 1));
    AffineSum(t, x, x', r);
    SumTimesDifference(x, y, x', y', d, s, t);
    ProductsAre(x, y, x', y', d, s, t);
    FourTimes(r.x, r.z, s, t, Square(x' - x), Square(x * x' - 1));
    TimesIs(r.z, s);
  }

  /** Differential addition of two affine points. */
  lemma {:induction false} AffineSum(t: int, x: int, x': int, r: Proj)
    requires r == DiffAdd(t, Proj(x', 1), Proj(x, 1))
    ensures Cong(r.x, 4 * Square(x * x' - 1), P) && Cong(r.z, 4 * t * Square(x' - x), P)
  {
    DiffAddCong(t, Proj(x', 1), Proj(x, 1));
    assert x' * x - 1 * 1 == x * x' - 1 && x' * 1 - 1 * x == x' - x;
  }

  lemma {:induction false} FourTimes(rx: int, rz: int, s: int, t: int, e: int, f: int)
    requires Cong(rx, 4 * f, P) && Cong(rz, 4 * t * e, P) && Cong((s * t) * e, f, P)
    ensures Cong(rz * s, rx, P)
  {
    CongRefl(s, P);
    CongMul(rz, 4 * t * e, s, s, P);
    CongRefl(4, P);
    CongMul(4, 4, (s * t) * e, f, P);
    assert 4 * t * e * s == 4 * ((s * t) * e);
    CongTrans(rz * s, 4 * ((s * t) * e), 4 * f, P);
    CongSym(rx, 4 * f, P);
    CongTrans(rz * s, 4 * f, rx, P);
  }

  // ---------- tangents ----------

  /** The x-coordinate of the tangent construction, times the square of its denominator. */
  lemma {:induction false} TangentTimes(x: int, y: int, d: int, s: int)
    requires OnCurve(x, y) && Cong(Times(d, 2 * y), 1, P) && s == LineX(TangentSlope(x, d), x, x)
    ensures Cong(Times(4 * Squared(y), s), Squared(Squared(x) - 1), P)
  {
    var n, c, e := 3 * (x * x) + 2 * A * x + 1, A + x + x, 2 * y;
    var m := n * d;
    TimesIs(d, e);
    TimesIs(x, x);
    TimesIs(n, d);
    TimesIs(m, m);
    TimesIs(y, y);
    TimesIs(4 * (y * y), s);
    TimesIs(x * x - 1, x * x - 1);
    ClearDenominator(n, d, e, c);
    FourSquares(y);
    TangentValue(x, y, n, c);
    CongTrans((e * e) * (m * m - c), n * n - c * (e * e), (x * x - 1) * (x * x - 1), P);
  }

  lemma {:induction false} TangentValue(x: int, y: int, n: int, c: int)
    requires OnCurve(x, y) && n == 3 * (x * x) + 2 * A * x + 1 && c == A + x + x
    ensures Cong(n * n - c * ((2 * y) * (2 * y)), (x * x - 1) * (x * x - 1), P)
  {
    SquaresAdd(x, y, x, y);
    FourSquares(y);
    CongRefl(4, P);
    CongMul(4, 4, y * y, Cubic(x), P);
    CongRefl(c, P);
    CongMul(c, c, 4 * (y * y), 4 * Cubic(x), P);
    CongRefl(n * n, P);
    CongSub(n * n, n * n, c * (4 * (y * y)), c * (4 * Cubic(x)), P);
    TangentPolynomial(x, A);
    Rotate(c, Cubic(x));
    ThreeSquares(x);
  }

  lemma {:induction false} ThreeSquares(x: int)
    ensures 3 * x * x == 3 * (x * x)
  {
  }

  lemma {:induction false} FourSquares(y: int)
    ensures (2 * y) * (2 * y) == 4 * (y * y)
  {
  }

  lemma {:induction false} Rotate(c: int, f: int)
    ensures c * (4 * f) == 4 * f * c
  {
  }

  /** Doubling is doubling on the curve: the quotient of the result is the x-coordinate of the tangent construction. */
  lemma {:induction false} DoubleIsTangent(x: int, y: int, d: int)
    requires OnCurve(x, y) && Cong(Times(d, 2 * y), 1, P)
    ensures var s := LineX(TangentSlope(x, d), x, x);
            var r := Double(Proj(x, 1));
            Cong(Times(r.z, s), r.x, P)
  {
    var s, r := LineX(TangentSlope(x, d), x, x), Double(Proj(x, 1));
    DoubledAffine(x);
    TangentNumerator(r.x, x);
    TangentDenominator(r.z, x, y);
    TangentTimes(x, y, d, s);
    TangentQuotient(r.x, r.z, s, 4 * Squared(y), Squared(Squared(x) - 1));
  }

  lemma {:induction false} TangentNumerator(rx: int, x: int)
    requires Cong(rx, Square(x * x - 1), P)
    ensures Cong(rx, Squared(Squared(x) - 1), P)
  {
    TimesIs(x, x);
    TimesIs(Squared(x) - 1, Squared(x) - 1);
  }

  lemma {:induction false} TangentDenominator(rz: int, x: int, y: int)
    requires OnCurve(x, y) && Cong(rz, 4 * Cubic(x), P)
    ensures Cong(rz, 4 * Squared(y), P)
  {
    TimesIs(y, y);
    FourCubic(x, y);
    CongTrans(rz, 4 * Cubic(x), 4 * (y * y), P);
  }

  lemma {:induction false} DoubledAffine(x: int)
    ensures var r := Double(Proj(x, 1)); Cong(r.x, Square(x * x - 1), P) && Cong(r.z, 4 * Cubic(x), P)
  {
    DoubleCong(Proj(x, 1));
    DoubledCubic(x);
  }

  lemma {:induction false} FourCubic(x: int, y: int)
    requires OnCurve(x, y)
    ensures Cong(4 * Cubic(x), 4 * (y * y), P)
  {
    SquaresAdd(x, y, x, y);
    CongRefl(4, P);
    CongSym(y * y, Cubic(x), P);
    CongMul(4, 4, Cubic(x), y * y, P);
  }

  lemma {:induction false} DoubledCubic(x: int)
    ensures Square(x * x - 1 * 1) == Square(x * x - 1)
    ensures 4 * (x * 1) * (x * x + A * (x * 1) + 1 * 1) == 4 * Cubic(x)
  {
  }

  lemma {:induction false} TangentQuotient(rx: int, rz: int, s: int, e: int, f: int)
    requires Cong(rx, f, P) && Cong(rz, e, P) && Cong(Times(e, s), f, P)
    ensures Cong(Times(rz, s), rx, P)
  {
    TimesIs(e, s);
    TimesIs(rz, s);
    CongRefl(s, P);
    CongMul(rz, e, s, s, P);
    CongTrans(rz * s, e * s, f, P);
    CongSym(rx, f, P);
    CongTrans(rz * s, f, rx, P);
  }
}
