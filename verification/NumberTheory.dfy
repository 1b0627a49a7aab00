/** Facts about powers, primes and congruences that the RSA module rests on. */
module NumberTheory {

  function Pow(b: int, e: nat): int {
    if e == 0 then 1 else b * Pow(b, e - 1)
  }

  ghost predicate Prime(p: int) {
    2 <= p && forall d :: 2 <= d < p ==> p % d != 0
  }

  /** d divides n, with the cofactor made explicit. */
  ghost predicate Divides(d: int, n: int) {
    exists k: int :: Times(d, k) == n
  }

  ghost function Times(a: int, b: int): int { a * b }

  ghost predicate Congruent(a: int, b: int, m: int) {
    Divides(m, a - b)
  }

  // ---------- division with remainder ----------

  /** The only multiple of m strictly between -m and m is 0. */
  lemma SmallMultiple(m: int, k: int)
    requires -m < m * k < m
    ensures k == 0
  {}

  lemma QuotientUnique(m: int, q: int, r: int)
    requires 0 <= r < m
    ensures (q * m + r) / m == q && (q * m + r) % m == r
  {
    var x := q * m + r;
    var q', r' := x / m, x % m;
    assert x == m * q' + r';
    assert m * (q' - q) == r - r' by {
      assert m * (q' - q) == m * q' - m * q;
    }
    SmallMultiple(m, q' - q);
  }

  lemma DividesIntro(d: int, k: int)
    ensures Divides(d, d * k)
  {
    assert Times(d, k) == d * k;
  }

  lemma Cofactor(d: int, n: int) returns (k: int)
    requires Divides(d, n)
    ensures n == d * k
  {
    k :| Times(d, k) == n;
  }

  lemma DividesLinear(d: int, a: int, b: int, x: int, y: int)
    requires Divides(d, a) && Divides(d, b)
    ensures Divides(d, a * x + b * y)
  {
    var k := Cofactor(d, a);
    var l := Cofactor(d, b);
    assert a * x + b * y == d * (k * x + l * y);
    DividesIntro(d, k * x + l * y);
  }

  // ---------- congruence ----------

  lemma CongruentRefl(a: int, m: int)
    ensures Congruent(a, a, m)
  {
    DividesIntro(m, 0);
  }

  lemma CongruentTrans(a: int, b: int, c: int, m: int)
    requires Congruent(a, b, m) && Congruent(b, c, m)
    ensures Congruent(a, c, m)
  {
    DividesLinear(m, a - b, b - c, 1, 1);
  }

  lemma CongruentSym(a: int, b: int, m: int)
    requires Congruent(a, b, m)
    ensures Congruent(b, a, m)
  {
    DividesLinear(m, a - b, a - b, -1, 0);
  }

  lemma CongruentMul(a: int, b: int, c: int, d: int, m: int)
    requires Congruent(a, b, m) && Congruent(c, d, m)
    ensures Congruent(a * c, b * d, m)
  {
    assert a * c - b * d == (a - b) * c + (c - d) * b;
    DividesLinear(m, a - b, c - d, c, b);
  }

  lemma CongruentPow(a: int, b: int, e: nat, m: int)
    requires Congruent(a, b, m)
    ensures Congruent(Pow(a, e), Pow(b, e), m)
  {
    if e == 0 {
      CongruentRefl(1, m);
    } else {
      CongruentPow(a, b, e - 1, m);
      CongruentMul(a, b, Pow(a, e - 1), Pow(b, e - 1), m);
    }
  }

  lemma CongruentMod(a: int, m: int)
    requires m > 0
    ensures Congruent(a % m, a, m)
  {
    assert a % m - a == m * (-(a / m));
    DividesIntro(m, -(a / m));
  }

  /** Congruent residues are equal. */
  lemma CongruentResidues(a: int, b: int, m: int)
    requires 0 <= a < m && 0 <= b < m && Congruent(a, b, m)
    ensures a == b
  {
    var k := Cofactor(m, a - b);
    SmallMultiple(m, k);
  }

  // ---------- powers ----------

  lemma {:induction false} PowAdd(b: int, x: nat, y: nat)
    ensures Pow(b, x + y) == Pow(b, x) * Pow(b, y)
  {
    if x == 0 {
    } else {
      PowAdd(b, x - 1, y);
    }
  }

  lemma {:induction false} PowMul(b: int, x: nat, y: nat)
    ensures 0 <= x * y
    ensures Pow(Pow(b, x), y) == Pow(b, x * y)
  {
    if y == 0 {
    } else {
      PowMul(b, x, y - 1);
      assert x * y == x + x * (y - 1);
      PowAdd(b, x, x * (y - 1));
    }
  }

  lemma PowOne(b: int)
    ensures Pow(b, 1) == b && Pow(1, 0) == 1
  {
    assert Pow(b, 1) == b * Pow(b, 0);
  }

  lemma {:induction false} PowZero(e: nat)
    requires e >= 1
    ensures Pow(0, e) == 0
  {}

  lemma {:induction false} PowOfOne(e: nat)
    ensures Pow(1, e) == 1
  {
    if e == 0 {
    } else {
      PowOfOne(e - 1);
    }
  }

  // ---------- primes ----------

  /** Euclid's lemma in the shape used here: the factor k is smaller than the prime. */
  lemma {:induction false} Euclid(p: int, k: int, c: int)
    requires Prime(p) && 0 < k < p && Divides(p, k * c)
    ensures Divides(p, c)
    decreases k
  {
    if k <= 1 {
    } else {
      var q, r := p / k, p % k;
      assert p == k * q + r;
      assert r * c == p * c - (k * c) * q by {
        assert r == p - k * q;
        assert r * c == (p - k * q) * c == p * c - (k * q) * c;
        assert (k * q) * c == (k * c) * q;
      }
      DividesIntro(p, 1);
      DividesLinear(p, p, k * c, c, -q);
      Euclid(p, r, c);
    }
  }

  lemma NotMultiple(p: int, q: int)
    requires Prime(p) && Prime(q) && p != q
    ensures 0 < p % q
  {
    if p % q == 0 {
      var a := p / q;
      assert p == q * a;
      if p < q {
        SmallQuotient(p, q, a);
      }
    }
  }

  lemma SmallQuotient(p: int, q: int, a: int)
    requires 0 < p < q
    ensures p != q * a
  {
    if p == q * a { SmallMultiple(q, a); }
  }

  /** Two different primes that both divide n divide it together. */
  lemma PrimeProduct(p: int, q: int, n: int)
    requires Prime(p) && Prime(q) && p != q
    requires Divides(p, n) && Divides(q, n)
    ensures Divides(p * q, n)
  {
    var t := Cofactor(p, n);
    var a, r := p / q, p % q;
    assert p == q * a + r;
    NotMultiple(p, q);
    assert r * t == n - q * (a * t) by {
      assert (q * a + r) * t == n;
      assert (q * a) * t == q * (a * t);
    }
    DividesIntro(q, a * t);
    DividesLinear(q, n, q * (a * t), 1, -1);
    Euclid(q, r, t);
    var u := Cofactor(q, t);
    assert n == (p * q) * u;
    DividesIntro(p * q, u);
  }

  // ---------- binomial coefficients and Fermat ----------

  function Choose(n: nat, k: nat): nat {
    if k == 0 then 1 else if n == 0 then 0 else Choose(n - 1, k - 1) + Choose(n - 1, k)
  }

  lemma {:induction false} ChooseAbove(n: nat, k: nat)
    requires k > n
    ensures Choose(n, k) == 0
  {
    if n == 0 {
    } else {
      ChooseAbove(n - 1, k - 1);
      ChooseAbove(n - 1, k);
    }
  }

  lemma {:induction false} ChooseAll(n: nat)
    ensures Choose(n, n) == 1
  {
    if n == 0 {
    } else {
      ChooseAll(n - 1);
      ChooseAbove(n - 1, n);
    }
  }

  lemma {:induction false} Absorption(n: nat, k: nat)
    requires n >= 1 && k >= 1
    ensures k * Choose(n, k) == n * Choose(n - 1, k - 1)
  {
    if n == 1 {
      if k > 1 {
        ChooseAbove(1, k);
        ChooseAbove(0, k - 1);
      }
    } else if k == 1 {
      Absorption(n - 1, 1);
      assert Choose(n, 1) == Choose(n - 1, 0) + Choose(n - 1, 1);
    } else {
      Absorption(n - 1, k - 1);
      Absorption(n - 1, k);
      AbsorptionStep(n, k, Choose(n - 1, k - 1), Choose(n - 1, k), Choose(n - 2, k - 2), Choose(n - 2, k - 1));
    }
  }

  lemma AbsorptionStep(n: int, k: int, x: int, y: int, u: int, v: int)
    requires (k - 1) * x == (n - 1) * u && k * y == (n - 1) * v && x == u + v
    ensures k * (x + y) == n * x
  {
    calc {
      k * (x + y);
      k * x + k * y;
      (k - 1) * x + x + k * y;
      (n - 1) * u + x + (n - 1) * v;
      { assert (n - 1) * u + (n - 1) * v == (n - 1) * (u + v); }
      (n - 1) * x + x;
      n * x;
    }
  }

  /** The first m terms of the expansion of (1 + a)^n. */
  function Terms(n: nat, a: int, m: nat): int {
    if m == 0 then 0 else Terms(n, a, m - 1) + Choose(n, m - 1) * Pow(a, m - 1)
  }

  lemma {:induction false} TermsPascal(n: nat, a: int, m: nat)
    ensures Terms(n + 1, a, m + 1) == Terms(n, a, m + 1) + a * Terms(n, a, m)
  {
    if m == 0 {
      assert Terms(n, a, 1) == 1 && Terms(n + 1, a, 1) == 1 && Terms(n, a, 0) == 0 by {
        assert Terms(n, a, 1) == Terms(n, a, 0) + Choose(n, 0) * Pow(a, 0);
        assert Terms(n + 1, a, 1) == Terms(n + 1, a, 0) + Choose(n + 1, 0) * Pow(a, 0);
      }
    } else {
      TermsPascal(n, a, m - 1);
      PascalStep(a, Terms(n, a, m), Terms(n, a, m - 1), Choose(n, m - 1), Choose(n, m), Pow(a, m - 1));
    }
  }

  lemma PascalStep(a: int, t: int, t': int, c: int, d: int, w: int)
    requires t == t' + c * w
    ensures t + a * t' + (c + d) * (a * w) == t + d * (a * w) + a * t
  {
    assert (c + d) * (a * w) == c * (a * w) + d * (a * w);
    assert c * (a * w) == a * (c * w);
    assert a * t == a * t' + a * (c * w);
  }

  lemma {:induction false} Binomial(n: nat, a: int)
    ensures Pow(1 + a, n) == Terms(n, a, n + 1)
  {
    if n == 0 {
      assert Terms(0, a, 1) == Terms(0, a, 0) + Choose(0, 0) * Pow(a, 0);
    } else {
      var t := Terms(n - 1, a, n);
      Binomial(n - 1, a);
      TermsPascal(n - 1, a, n);
      ChooseAbove(n - 1, n);
      assert Terms(n - 1, a, n + 1) == t + Choose(n - 1, n) * Pow(a, n) == t;
      assert (1 + a) * t == t + a * t;
    }
  }

  /** A prime divides every inner term of its binomial expansion. */
  lemma {:induction false} InnerTerms(p: nat, a: int, m: nat)
    requires Prime(p) && 1 <= m <= p
    ensures Congruent(Terms(p, a, m), 1, p)
  {
    if m == 1 {
      assert Terms(p, a, 1) == Terms(p, a, 0) + Choose(p, 0) * Pow(a, 0);
      CongruentRefl(1, p);
    } else {
      InnerTerms(p, a, m - 1);
      var k := m - 1;
      Absorption(p, k);
      DividesIntro(p, Choose(p - 1, k - 1));
      Euclid(p, k, Choose(p, k));
      DividesLinear(p, Terms(p, a, m - 1) - 1, Choose(p, k), 1, Pow(a, k));
    }
  }

  /** Fermat's little theorem. */
  lemma {:induction false} Fermat(p: nat, a: nat)
    requires Prime(p)
    ensures Congruent(Pow(a, p), a, p)
  {
    if a == 0 {
      PowZero(p);
      CongruentRefl(0, p);
    } else {
      Fermat(p, a - 1);
      Binomial(p, a - 1);
      InnerTerms(p, a - 1, p);
      ChooseAll(p);
      assert Pow(a, p) == Terms(p, a - 1, p) + Pow(a - 1, p);
      assert Pow(a, p) - a == (Terms(p, a - 1, p) - 1) * 1 + (Pow(a - 1, p) - (a - 1)) * 1;
      DividesLinear(p, Terms(p, a - 1, p) - 1, Pow(a - 1, p) - (a - 1), 1, 1);
    }
  }

  /** The exponent may be changed by multiples of p - 1. */
  lemma {:induction false} FermatRepeated(p: nat, a: nat, m: nat)
    requires Prime(p)
    ensures 0 <= m * (p - 1)
    ensures Congruent(Pow(a, 1 + m * (p - 1)), a, p)
  {
    if m == 0 {
      PowOne(a);
      CongruentRefl(a, p);
    } else {
      FermatRepeated(p, a, m - 1);
      assert m * (p - 1) == (m - 1) * (p - 1) + (p - 1);
      PowAdd(a, 1 + (m - 1) * (p - 1), p - 1);
      CongruentRefl(Pow(a, p - 1), p);
      CongruentMul(Pow(a, 1 + (m - 1) * (p - 1)), a, Pow(a, p - 1), Pow(a, p - 1), p);
      Fermat(p, a);
      assert a * Pow(a, p - 1) == Pow(a, p);
      CongruentTrans(Pow(a, 1 + m * (p - 1)), Pow(a, p), a, p);
    }
  }
}
