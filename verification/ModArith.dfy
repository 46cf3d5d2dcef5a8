/**
 Congruences, primes and Fermat's little theorem.  The congruence hides its witness, so that proofs
 use it through the laws below and not by computing with the modulus; the theorem itself is proved
 by the binomial theorem, from the divisibility of the binomial coefficients of a prime.
 */
module ModArith {

  // ---------- products ----------

  /** The product by repeated addition: a name for it that proofs look into only through `TimesIs`. */
  function Times(a: int, b: int): int
    decreases if b < 0 then -b else b
  {
    if b == 0 then 0 else if b > 0 then Times(a, b - 1) + a else Times(a, b + 1) - a
  }

  lemma {:induction false} TimesIs(a: int, b: int)
    ensures Times(a, b) == a * b
    decreases if b < 0 then -b else b
  {
    if b > 0 {
      TimesIs(a, b - 1);
    } else if b < 0 {
      TimesIs(a, b + 1);
    }
  }

  // ---------- congruence ----------

  /** `a` and `b` leave the same remainder modulo `p`. */
  ghost predicate Cong(a: int, b: int, p: int) {
    exists k :: Differ(a, b, p, k)
  }

  /** A mark: where it stands, proofs see through `Differ`, and nowhere else. */
  predicate Look(mark: int) { true }

  ghost predicate Differ(a: int, b: int, p: int, k: int) {
    forall mark: int {:trigger Look(mark)} :: Look(mark) ==> a == b + p * k
  }

  lemma {:induction false} CongBy(a: int, b: int, p: int, k: int)
    requires a == b + p * k
    ensures Cong(a, b, p)
  {
    assert Differ(a, b, p, k);
  }

  lemma {:induction false} CongGives(a: int, b: int, p: int) returns (k: int)
    requires Cong(a, b, p)
    ensures a == b + p * k
  {
    k :| Differ(a, b, p, k);
    assert Look(0);
  }

  lemma {:induction false} CongRefl(a: int, p: int)
    ensures Cong(a, a, p)
  {
    CongBy(a, a, p, 0);
  }

  lemma {:induction false} CongSym(a: int, b: int, p: int)
    requires Cong(a, b, p)
    ensures Cong(b, a, p)
  {
    var k := CongGives(a, b, p);
    assert p * -k == -(p * k);
    CongBy(b, a, p, -k);
  }

  lemma {:induction false} CongTrans(a: int, b: int, c: int, p: int)
    requires Cong(a, b, p) && Cong(b, c, p)
    ensures Cong(a, c, p)
  {
    var k := CongGives(a, b, p);
    var l := CongGives(b, c, p);
    assert p * (k + l) == p * k + p * l;
    CongBy(a, c, p, k + l);
  }

  lemma {:induction false} CongAdd(a: int, b: int, c: int, d: int, p: int)
    requires Cong(a, b, p) && Cong(c, d, p)
    ensures Cong(a + c, b + d, p)
  {
    var k := CongGives(a, b, p);
    var l := CongGives(c, d, p);
    assert p * (k + l) == p * k + p * l;
    CongBy(a + c, b + d, p, k + l);
  }

  lemma {:induction false} CongSub(a: int, b: int, c: int, d: int, p: int)
    requires Cong(a, b, p) && Cong(c, d, p)
    ensures Cong(a - c, b - d, p)
  {
    var k := CongGives(a, b, p);
    var l := CongGives(c, d, p);
    assert p * (k - l) == p * k - p * l;
    CongBy(a - c, b - d, p, k - l);
  }

  lemma {:induction false} CongMul(a: int, b: int, c: int, d: int, p: int)
    requires Cong(a, b, p) && Cong(c, d, p)
    ensures Cong(a * c, b * d, p)
  {
    var k := CongGives(a, b, p);
    var l := CongGives(c, d, p);
    var m := b * l + k * d + p * k * l;
    calc {
      a * c;
      (b + p * k) * (d + p * l);
      b * d + b * (p * l) + (p * k) * d + (p * k) * (p * l);
      { assert b * (p * l) == p * (b * l) && (p * k) * d == p * (k * d) && (p * k) * (p * l) == p * (p * k * l); }
      b * d + p * (b * l) + p * (k * d) + p * (p * k * l);
      b * d + p * m;
    }
    CongBy(a * c, b * d, p, m);
  }

  lemma {:induction false} CongMod(a: int, p: int)
    requires p > 0
    ensures Cong(a % p, a, p)
  {
    assert p * -(a / p) == -(p * (a / p));
    CongBy(a % p, a, p, -(a / p));
  }

  /** Congruent numbers in the range of the remainders are equal. */
  lemma {:induction false} CongEqual(a: int, b: int, p: int)
    requires 0 <= a < p && 0 <= b < p && Cong(a, b, p)
    ensures a == b
  {
    var k := CongGives(a, b, p);
    assert p * -k == -(p * k);
    if k >= 1 {
      MulAtLeast(p, k);
    } else if k <= -1 {
      MulAtLeast(p, -k);
    }
  }

  lemma {:induction false} MulAtLeast(p: int, k: int)
    requires p >= 0 && k >= 1
    ensures p * k >= p
  {
    assert p * k == p + p * (k - 1);
    assert p * (k - 1) >= 0;
  }

  // ---------- primes ----------

  /** `p` divides `a`. */
  ghost predicate Divides(p: int, a: int) {
    Cong(a, 0, p)
  }

  ghost predicate IsPrime(p: int) {
    p >= 2 && forall d :: 2 <= d < p ==> !Divides(d, p)
  }

  lemma {:induction false} DividesMod(p: int, a: int)
    requires p > 0
    ensures Divides(p, a) <==> a % p == 0
  {
    if a % p == 0 {
      CongBy(a, 0, p, a / p);
    }
    if Divides(p, a) {
      CongMod(a, p);
      CongTrans(a % p, a, 0, p);
      CongEqual(a % p, 0, p);
    }
  }

  /** Euclid's lemma: a prime that divides a product divides one of the factors. */
  lemma {:induction false} EuclidSmall(p: int, a: int, b: int)
    requires IsPrime(p) && 0 < a < p && Divides(p, a * b)
    ensures Divides(p, b)
    decreases a
  {
    if a > 1 {
      var q, r := p / a, p % a;
      DividesMod(a, p);
      assert r > 0;
      assert r * b == p * b - q * (a * b) by {
        assert r == p - a * q;
        assert (p - a * q) * b == p * b - (a * q) * b;
        assert (a * q) * b == q * (a * b);
      }
      CongBy(p * b, 0, p, b);
      CongRefl(q, p);
      CongMul(q, q, a * b, 0, p);
      CongSub(p * b, 0, q * (a * b), q * 0, p);
      EuclidSmall(p, r, b);
    }
  }

  lemma {:induction false} Euclid(p: int, a: int, b: int)
    requires IsPrime(p) && Divides(p, a * b)
    ensures Divides(p, a) || Divides(p, b)
  {
    var r := a % p;
    CongMod(a, p);
    DividesMod(p, a);
    if r != 0 {
      CongRefl(b, p);
      CongMul(r, a, b, b, p);
      CongTrans(r * b, a * b, 0, p);
      EuclidSmall(p, r, b);
    }
  }

  // ---------- powers and binomial coefficients ----------

  function Pow(b: int, e: nat): int {
    if e == 0 then 1 else b * Pow(b, e - 1)
  }

  /** Pascal's triangle. */
  function Choose(n: nat, k: nat): nat {
    if k == 0 then 1
    else if n == 0 then 0
    else Choose(n - 1, k - 1) + Choose(n - 1, k)
  }

  lemma {:induction false} ChooseEdge(n: nat, k: nat)
    requires k >= n
    ensures Choose(n, k) == if k == n then 1 else 0
  {
    if n > 0 {
      ChooseEdge(n - 1, k - 1);
      ChooseEdge(n - 1, k);
    }
  }

  lemma {:induction false} ChooseAbsorb(n: nat, k: nat)
    requires n >= 1 && k >= 1
    ensures k * Choose(n, k) == n * Choose(n - 1, k - 1)
  {
    if n == 1 {
      ChooseEdge(1, k);
      ChooseEdge(0, k - 1);
    } else if k == 1 {
      ChooseAbsorb(n - 1, 1);
      assert Choose(n, 1) == Choose(n - 1, 0) + Choose(n - 1, 1);
    } else {
      ChooseAbsorb(n - 1, k);
      ChooseAbsorb(n - 1, k - 1);
      assert Choose(n, k) == Choose(n - 1, k - 1) + Choose(n - 1, k);
      assert Choose(n - 1, k - 1) == Choose(n - 2, k - 2) + Choose(n - 2, k - 1);
      AbsorbStep(n, k, Choose(n - 1, k - 1), Choose(n - 1, k), Choose(n - 2, k - 2), Choose(n - 2, k - 1));
    }
  }

  lemma {:induction false} AbsorbStep(n: int, k: int, x: int, w: int, y: int, z: int)
    requires x == y + z && k * w == (n - 1) * z && (k - 1) * x == (n - 1) * y
    ensures k * (x + w) == n * x
  {
    assert k * (x + w) == (k - 1) * x + x + k * w;
    assert (n - 1) * y + (n - 1) * z == (n - 1) * (y + z);
  }

  /** The sum of the first `m` terms of the expansion of `(1 + a)` to the power `n`. */
  function Expansion(n: nat, a: int, m: nat): int {
    if m == 0 then 0 else Expansion(n, a, m - 1) + Choose(n, m - 1) * Pow(a, m - 1)
  }

  lemma {:induction false} ExpansionStep(n: nat, a: int, m: nat)
    requires m >= 1
    ensures Expansion(n + 1, a, m) == Expansion(n, a, m) + a * Expansion(n, a, m - 1)
  {
    if m > 1 {
      ExpansionStep(n, a, m - 1);
      assert Choose(n + 1, m - 1) == Choose(n, m - 2) + Choose(n, m - 1);
      assert Pow(a, m - 1) == a * Pow(a, m - 2);
      TermStep(a, Choose(n, m - 2), Choose(n, m - 1), Pow(a, m - 2), Expansion(n, a, m - 2));
    }
  }

  lemma {:induction false} TermStep(a: int, x: int, y: int, q: int, e: int)
    ensures (x + y) * (a * q) == y * (a * q) + a * (x * q)
    ensures a * (e + x * q) == a * e + a * (x * q)
  {
    assert (x + y) * (a * q) == x * (a * q) + y * (a * q);
    assert x * (a * q) == a * (x * q);
  }

  lemma {:induction false} Binomial(n: nat, a: int)
    ensures Pow(1 + a, n) == Expansion(n, a, n + 1)
  {
    if n > 0 {
      Binomial(n - 1, a);
      ExpansionStep(n - 1, a, n + 1);
      ChooseEdge(n - 1, n);
    }
  }

  lemma {:induction false} PrimeDividesChoose(p: int, k: nat)
    requires IsPrime(p) && 0 < k < p
    ensures Divides(p, Choose(p, k))
  {
    ChooseAbsorb(p, k);
    CongBy(k * Choose(p, k), 0, p, Choose(p - 1, k - 1));
    EuclidSmall(p, k, Choose(p, k));
  }

  lemma {:induction false} ExpansionModPrime(p: int, a: int, m: nat)
    requires IsPrime(p) && 1 <= m <= p
    ensures Cong(Expansion(p, a, m), 1, p)
  {
    if m == 1 {
      assert Expansion(p, a, 1) == Expansion(p, a, 0) + Choose(p, 0) * Pow(a, 0);
      CongRefl(1, p);
    } else {
      ExpansionModPrime(p, a, m - 1);
      PrimeDividesChoose(p, m - 1);
      CongRefl(Pow(a, m - 1), p);
      CongMul(Choose(p, m - 1), 0, Pow(a, m - 1), Pow(a, m - 1), p);
      CongAdd(Expansion(p, a, m - 1), 1, Choose(p, m - 1) * Pow(a, m - 1), 0, p);
    }
  }

  lemma {:induction false} FermatNat(p: int, a: nat)
    requires IsPrime(p)
    ensures Cong(Pow(a, p), a, p)
  {
    if a == 0 {
      CongRefl(0, p);
    } else {
      FermatNat(p, a - 1);
      ExpansionModPrime(p, a - 1, p);
      CongAdd(Expansion(p, a - 1, p), 1, Pow(a - 1, p), a - 1, p);
      LastTerm(p, a - 1);
    }
  }

  lemma {:induction false} LastTerm(n: nat, a: int)
    ensures Pow(1 + a, n) == Expansion(n, a, n) + Pow(a, n)
  {
    Binomial(n, a);
    ChooseEdge(n, n);
  }

  /** Fermat's little theorem, as the inverse it provides: `v` times `v` to the power `p - 2` is 1. */
  lemma {:induction false} FermatInverse(p: int, v: nat)
    requires IsPrime(p) && !Divides(p, v)
    ensures Cong(v * Pow(v, p - 2), 1, p)
  {
    FermatNat(p, v);
    var w := v * Pow(v, p - 2);
    assert Pow(v, p) == v * w;
    CongRefl(v, p);
    CongSub(v * w, v, v, v, p);
    assert v * (w - 1) == v * w - v;
    Euclid(p, v, w - 1);
    CongRefl(1, p);
    CongAdd(w - 1, 0, 1, 1, p);
  }
}
