/** The number theory behind djlc/include/mod_math.h: congruences, primes,
    binomial coefficients and Fermat's little theorem. */
module NumberTheory {
  import Bits

  function Times(k: int, m: int): int { k * m }

  /** a and b differ by a multiple of m. */
  ghost predicate Cong(a: int, b: int, m: int) {
    exists k :: a - b == Times(k, m)
  }

  predicate Prime(p: nat) {
    p >= 2 && forall d | 2 <= d < p :: p % d != 0
  }

  function Pow(b: int, e: nat): int {
    if e == 0 then 1 else b * Pow(b, e - 1)
  }

  function Fact(n: nat): (f: nat)
    ensures f >= 1
  {
    if n == 0 then 1 else n * Fact(n - 1)
  }

  /** Pascal's triangle. */
  function Choose(n: nat, k: nat): nat {
    if k == 0 then 1
    else if n == 0 then 0
    else Choose(n - 1, k - 1) + Choose(n - 1, k)
  }

  // ----- Congruences -------------------------------------------------------

  lemma CongFromWitness(a: int, b: int, m: int, k: int)
    requires a - b == k * m
    ensures Cong(a, b, m)
  {
    assert a - b == Times(k, m);
  }

  lemma CongRefl(a: int, m: int)
    ensures Cong(a, a, m)
  {
    CongFromWitness(a, a, m, 0);
  }

  lemma CongSym(a: int, b: int, m: int)
    requires Cong(a, b, m)
    ensures Cong(b, a, m)
  {
    var k :| a - b == Times(k, m);
    assert b - a == (-k) * m;
    CongFromWitness(b, a, m, -k);
  }

  lemma CongTrans(a: int, b: int, c: int, m: int)
    requires Cong(a, b, m) && Cong(b, c, m)
    ensures Cong(a, c, m)
  {
    var k :| a - b == Times(k, m);
    var l :| b - c == Times(l, m);
    assert a - c == (k + l) * m;
    CongFromWitness(a, c, m, k + l);
  }

  lemma CongAdd(a: int, b: int, c: int, d: int, m: int)
    requires Cong(a, b, m) && Cong(c, d, m)
    ensures Cong(a + c, b + d, m)
  {
    var k :| a - b == Times(k, m);
    var l :| c - d == Times(l, m);
    assert (a + c) - (b + d) == (k + l) * m;
    CongFromWitness(a + c, b + d, m, k + l);
  }

  lemma CongMul(a: int, b: int, c: int, d: int, m: int)
    requires Cong(a, b, m) && Cong(c, d, m)
    ensures Cong(a * c, b * d, m)
  {
    var k :| a - b == Times(k, m);
    var l :| c - d == Times(l, m);
    calc {
      a * c - b * d;
      (a - b) * c + b * (c - d);
      (k * m) * c + b * (l * m);
      (k * c + b * l) * m;
    }
    CongFromWitness(a * c, b * d, m, k * c + b * l);
  }

  lemma CongScale(a: int, b: int, c: int, m: int)
    requires Cong(a, b, m)
    ensures Cong(a * c, b * c, m) && Cong(c * a, c * b, m)
  {
    CongRefl(c, m);
    CongMul(a, b, c, c, m);
    CongMul(c, c, a, b, m);
  }

  lemma CongMod(a: int, m: nat)
    requires m > 0
    ensures Cong(a % m, a, m)
  {
    assert a % m - a == (-(a / m)) * m;
    CongFromWitness(a % m, a, m, -(a / m));
  }

  /** Two residues of the same class are equal. */
  lemma CongUnique(a: int, b: int, m: nat)
    requires 0 <= a < m && 0 <= b < m && Cong(a, b, m)
    ensures a == b
  {
    var k :| a - b == Times(k, m);
    Bits.MulAtLeast(m, k);
  }

  lemma CongIffMod(a: int, b: int, m: nat)
    requires m > 0
    ensures Cong(a, b, m) <==> a % m == b % m
  {
    CongMod(a, m);
    CongMod(b, m);
    if a % m == b % m {
      CongSym(a % m, a, m);
      CongTrans(a, a % m, b, m);
    }
    if Cong(a, b, m) {
      CongTrans(a % m, a, b, m);
      CongSym(b % m, b, m);
      CongTrans(a % m, b, b % m, m);
      CongUnique(a % m, b % m, m);
    }
  }

  /** Congruent numbers are congruent to the same numbers. */
  lemma CongSame(x: int, y: int, c: int, m: int)
    requires Cong(x, y, m)
    ensures Cong(x, c, m) <==> Cong(y, c, m)
  {
    CongSym(x, y, m);
    if Cong(x, c, m) {
      CongTrans(y, x, c, m);
    }
    if Cong(y, c, m) {
      CongTrans(x, y, c, m);
    }
  }

  lemma {:induction false} CongPow(a: int, b: int, e: nat, m: int)
    requires Cong(a, b, m)
    ensures Cong(Pow(a, e), Pow(b, e), m)
  {
    if e == 0 {
      CongRefl(1, m);
    } else {
      CongPow(a, b, e - 1, m);
      CongMul(a, b, Pow(a, e - 1), Pow(b, e - 1), m);
    }
  }

  lemma {:induction false} PowAdd(b: int, d: nat, e: nat)
    ensures Pow(b, d + e) == Pow(b, d) * Pow(b, e)
  {
    if d != 0 {
      PowAdd(b, d - 1, e);
      assert Pow(b, d + e) == b * Pow(b, (d - 1) + e);
    }
  }

  lemma {:induction false} PowSquare(b: int, e: nat)
    ensures Pow(b * b, e) == Pow(b, 2 * e)
  {
    if e != 0 {
      PowSquare(b, e - 1);
      assert Pow(b, 2 * e) == b * (b * Pow(b, 2 * (e - 1)));
    }
  }

  // ----- Primes ------------------------------------------------------------

  /** Euclid's lemma for a factor below the prime. */
  lemma {:induction false} EuclidBelow(p: nat, x: nat, b: int)
    requires Prime(p) && 0 < x < p && Cong(x * b, 0, p)
    ensures Cong(b, 0, p)
    decreases x
  {
    if x != 1 {
      var q, r := p / x, p % x;
      assert r != 0;
      var k :| x * b - 0 == Times(k, p);
      calc {
        r * b;
        (p - q * x) * b;
        p * b - q * (x * b);
        p * b - q * (k * p);
        (b - q * k) * p;
      }
      CongFromWitness(r * b, 0, p, b - q * k);
      EuclidBelow(p, r, b);
    }
  }

  /** Euclid's lemma: a prime dividing a product divides one of its factors. */
  lemma Euclid(p: nat, a: int, b: int)
    requires Prime(p) && Cong(a * b, 0, p)
    ensures Cong(a, 0, p) || Cong(b, 0, p)
  {
    CongMod(a, p);
    if a % p == 0 {
      CongIffMod(a, 0, p);
    } else {
      CongScale(a % p, a, b, p);
      CongTrans((a % p) * b, a * b, 0, p);
      EuclidBelow(p, a % p, b);
    }
  }

  lemma SmallNotCongZero(p: nat, x: nat)
    requires 0 < x < p
    ensures !Cong(x, 0, p)
  {
    if Cong(x, 0, p) {
      CongUnique(x, 0, p);
    }
  }

  /** A prime divides n! exactly when it is at most n. */
  lemma {:induction false} PrimeDividesFact(p: nat, n: nat)
    requires Prime(p)
    ensures Cong(Fact(n), 0, p) <==> p <= n
  {
    if n == 0 {
      SmallNotCongZero(p, 1);
    } else {
      PrimeDividesFact(p, n - 1);
      if p <= n - 1 {
        CongScale(Fact(n - 1), 0, n, p);
      } else if p == n {
        CongFromWitness(Fact(n), 0, p, Fact(n - 1));
      } else {
        SmallNotCongZero(p, n);
        if Cong(Fact(n), 0, p) {
          Euclid(p, n, Fact(n - 1));
        }
      }
    }
  }

  // ----- Binomial coefficients ---------------------------------------------

  lemma {:induction false} ChooseAbove(n: nat, k: nat)
    requires k > n
    ensures Choose(n, k) == 0
  {
    if n != 0 {
      ChooseAbove(n - 1, k - 1);
      ChooseAbove(n - 1, k);
    }
  }

  lemma {:induction false} ChooseAll(n: nat)
    ensures Choose(n, n) == 1
  {
    if n != 0 {
      ChooseAll(n - 1);
      ChooseAbove(n - 1, n);
    }
  }

  lemma AbsorbAlgebra(n: int, k: int, c: int, u: int, v: int, w: int)
    requires c == u + v && (k - 1) * c == (n - 1) * u && k * w == (n - 1) * v
    ensures k * (c + w) == n * c
  {
    assert k * (c + w) == (k - 1) * c + c + k * w;
    assert (n - 1) * u + (n - 1) * v == (n - 1) * (u + v);
  }

  /** The absorption identity. */
  lemma {:induction false} Absorb(n: nat, k: nat)
    requires n >= 1 && k >= 1
    ensures k * Choose(n, k) == n * Choose(n - 1, k - 1)
  {
    if n == 1 {
      if k >= 2 {
        ChooseAbove(1, k);
        ChooseAbove(0, k - 1);
      }
    } else if k == 1 {
      Absorb(n - 1, 1);
    } else {
      Absorb(n - 1, k - 1);
      Absorb(n - 1, k);
      AbsorbAlgebra(n, k, Choose(n - 1, k - 1), Choose(n - 2, k - 2), Choose(n - 2, k - 1), Choose(n - 1, k));
    }
  }

  lemma FactorialAlgebra(n: int, r: int, c: int, d: int, f: int, g: int)
    requires r * c == n * d
    ensures c * ((r * f) * g) == n * (d * (f * g))
  {
    assert c * ((r * f) * g) == (r * c) * (f * g);
    assert (n * d) * (f * g) == n * (d * (f * g));
  }

  /** Pascal's coefficients are n! / (r! (n - r)!). */
  lemma {:induction false} ChooseFactorials(n: nat, r: nat)
    requires r <= n
    ensures Choose(n, r) * (Fact(r) * Fact(n - r)) == Fact(n)
  {
    if r != 0 {
      Absorb(n, r);
      ChooseFactorials(n - 1, r - 1);
      FactorialAlgebra(n, r, Choose(n, r), Choose(n - 1, r - 1), Fact(r - 1), Fact(n - r));
      assert (n - 1) - (r - 1) == n - r;
    }
  }

  /** C(n,0) + C(n,1) a + ... + C(n,j) a^j. */
  function Expansion(n: nat, a: int, j: nat): int {
    if j == 0 then 1 else Expansion(n, a, j - 1) + Choose(n, j) * Pow(a, j)
  }

  lemma ExpansionAlgebra(a: int, c: int, d: int, q: int, x: int, y: int)
    ensures (x + a * y) + (c + d) * (a * q) == (x + d * (a * q)) + a * (y + c * q)
  {
    assert (c + d) * (a * q) == a * (c * q) + d * (a * q);
    assert a * (y + c * q) == a * y + a * (c * q);
  }

  lemma {:induction false} ExpansionStep(n: nat, a: int, j: nat)
    requires j >= 1
    ensures Expansion(n + 1, a, j) == Expansion(n, a, j) + a * Expansion(n, a, j - 1)
  {
    if j == 1 {
      assert Choose(n + 1, 1) == 1 + Choose(n, 1);
      assert Pow(a, 1) == a * Pow(a, 0) == a;
      assert Expansion(n + 1, a, 0) == Expansion(n, a, 0) == 1;
      ExpansionAlgebra(a, 1, Choose(n, 1), 1, 1, 0);
    } else {
      ExpansionStep(n, a, j - 1);
      assert Choose(n + 1, j) == Choose(n, j - 1) + Choose(n, j);
      ExpansionAlgebra(a, Choose(n, j - 1), Choose(n, j), Pow(a, j - 1), Expansion(n, a, j - 1), Expansion(n, a, j - 2));
    }
  }

  lemma DistributeOne(a: int, e: int)
    ensures e + a * e == (1 + a) * e
  {
  }

  /** The binomial theorem for 1 + a. */
  lemma {:induction false} Binomial(n: nat, a: int)
    ensures Expansion(n, a, n) == Pow(1 + a, n)
  {
    if n != 0 {
      Binomial(n - 1, a);
      ExpansionStep(n - 1, a, n);
      ChooseAbove(n - 1, n);
      var e := Expansion(n - 1, a, n - 1);
      var zero := Choose(n - 1, n) * Pow(a, n);
      assert zero == 0;
      assert Expansion(n - 1, a, n) == e + zero;
      assert Expansion(n, a, n) == e + a * e;
      DistributeOne(a, e);
    }
  }

  // ----- Fermat's little theorem -------------------------------------------

  /** A prime divides every inner coefficient of its row of Pascal's triangle. */
  lemma InnerChoose(p: nat, k: nat)
    requires Prime(p) && 0 < k < p
    ensures Cong(Choose(p, k), 0, p)
  {
    Absorb(p, k);
    assert k * Choose(p, k) - 0 == Choose(p - 1, k - 1) * p;
    CongFromWitness(k * Choose(p, k), 0, p, Choose(p - 1, k - 1));
    EuclidBelow(p, k, Choose(p, k));
  }

  lemma {:induction false} InnerExpansion(p: nat, a: int, j: nat)
    requires Prime(p) && j < p
    ensures Cong(Expansion(p, a, j), 1, p)
  {
    if j == 0 {
      CongRefl(1, p);
    } else {
      InnerExpansion(p, a, j - 1);
      InnerChoose(p, j);
      CongScale(Choose(p, j), 0, Pow(a, j), p);
      CongAdd(Expansion(p, a, j - 1), 1, Choose(p, j) * Pow(a, j), 0, p);
    }
  }

  lemma {:induction false} Fermat(p: nat, a: nat)
    requires Prime(p)
    ensures Cong(Pow(a, p), a, p)
  {
    if a == 0 {
      CongRefl(0, p);
    } else {
      Fermat(p, a - 1);
      Binomial(p, a - 1);
      InnerExpansion(p, a - 1, p - 1);
      ChooseAll(p);
      CongAdd(Expansion(p, a - 1, p - 1), 1, Pow(a - 1, p), a - 1, p);
    }
  }

  lemma DivideOut(a: int, x: int, m: int)
    requires Cong(a * x, a, m)
    ensures Cong(a * (x - 1), 0, m)
  {
    var k :| a * x - a == Times(k, m);
    assert a * (x - 1) - 0 == k * m;
    CongFromWitness(a * (x - 1), 0, m, k);
  }

  lemma NaturalInverse(p: nat, a: nat)
    requires Prime(p) && !Cong(a, 0, p)
    ensures Cong(a * Pow(a, p - 2), 1, p)
  {
    Fermat(p, a);
    var inv := Pow(a, p - 2);
    assert Pow(a, p) == a * Pow(a, p - 1) && Pow(a, p - 1) == a * inv;
    DivideOut(a, a * inv, p);
    Euclid(p, a, a * inv - 1);
    CongRefl(1, p);
    CongAdd(a * inv - 1, 0, 1, 1, p);
  }

  /** For a prime modulus, a^(p-2) is an inverse of a exactly when p does not divide a. */
  lemma FermatInverse(p: nat, a: int)
    requires Prime(p)
    ensures Cong(a * Pow(a, p - 2), 1, p) <==> !Cong(a, 0, p)
  {
    if Cong(a, 0, p) {
      CongScale(a, 0, Pow(a, p - 2), p);
      CongSame(a * Pow(a, p - 2), 0, 1, p);
      SmallNotCongZero(p, 1);
      if Cong(0, 1, p) {
        CongSym(0, 1, p);
      }
    } else {
      var b := a % p;
      CongMod(a, p);
      CongSame(b, a, 0, p);
      NaturalInverse(p, b);
      CongPow(b, a, p - 2, p);
      CongMul(b, a, Pow(b, p - 2), Pow(a, p - 2), p);
      CongSame(b * Pow(b, p - 2), a * Pow(a, p - 2), 1, p);
    }
  }
}
