/** The modular arithmetic of djlc/include/mod_math.h on 64-bit signed words.
    Every operation below is on `int64`, so verification shows that no
    intermediate value leaves the range of a C `long long`. */
module ModMath {
  import opened NumberTheory

  newtype int64 = x: int | -0x8000_0000_0000_0000 <= x < 0x8000_0000_0000_0000

  const INT_MAX: int := 0x7fff_ffff
  const INT64_MAX: int := 0x7fff_ffff_ffff_ffff

  /** Moduli for which the product of two residues fits a word. */
  predicate Safe(m: int64) {
    m > 0 && (m as int - 1) * (m as int - 1) <= INT64_MAX
  }

  /** C's remainder, which truncates toward zero. */
  function CRem(a: int64, m: int64): int64
    requires m > 0
  {
    if a < 0 && a % m != 0 then a % m - m else a % m
  }

  function Mod(a: int64, m: int64): (r: int64)
    requires m > 0
    ensures r as int == a as int % m as int
  {
    var r := CRem(a, m);
    if r < 0 then r + m else r
  }

  lemma SafeSum(m: int64)
    requires Safe(m)
    ensures 2 * (m as int) <= INT64_MAX
  {
    var k := m as int - 1;
    if k >= 4 {
      NonNegative(k - 4, k);
      assert (k - 4) * k == k * k - 4 * k;
    }
  }

  lemma NonNegative(x: int, y: int)
    requires x >= 0 && y >= 0
    ensures x * y >= 0
  {
  }

  function ModAdd(a: int64, b: int64, m: int64): (r: int64)
    requires Safe(m)
    ensures r as int == (a as int + b as int) % m as int
  {
    SafeSum(m);
    AddResidues(a as int, b as int, m as int);
    Mod(Mod(a, m) + Mod(b, m), m)
  }

  function ModSub(a: int64, b: int64, m: int64): (r: int64)
    requires Safe(m)
    ensures r as int == (a as int - b as int) % m as int
  {
    SafeSum(m);
    SubResidues(a as int, b as int, m as int);
    Mod(Mod(a, m) - Mod(b, m) + m, m)
  }

  function ModMul(a: int64, b: int64, m: int64): (r: int64)
    requires Safe(m)
    ensures r as int == (a as int * b as int) % m as int
  {
    ProductFits(Mod(a, m) as int, Mod(b, m) as int, m as int);
    MulResidues(a as int, b as int, m as int);
    Mod(Mod(a, m) * Mod(b, m), m)
  }

  lemma AddResidues(a: int, b: int, m: nat)
    requires m > 0
    ensures (a % m + b % m) % m == (a + b) % m
  {
    CongMod(a, m);
    CongMod(b, m);
    CongAdd(a % m, a, b % m, b, m);
    CongIffMod(a % m + b % m, a + b, m);
  }

  lemma SubResidues(a: int, b: int, m: nat)
    requires m > 0
    ensures (a % m - b % m + m) % m == (a - b) % m
  {
    CongFromWitness(a % m - b % m + m, a - b, m, b / m - a / m + 1) by {
      assert a % m - b % m + m - (a - b) == (b / m - a / m + 1) * m;
    }
    CongIffMod(a % m - b % m + m, a - b, m);
  }

  lemma MulResidues(a: int, b: int, m: nat)
    requires m > 0
    ensures ((a % m) * (b % m)) % m == (a * b) % m
  {
    CongMod(a, m);
    CongMod(b, m);
    CongMul(a % m, a, b % m, b, m);
    CongIffMod((a % m) * (b % m), a * b, m);
  }

  lemma ProductFits(x: int, y: int, m: int)
    requires 0 <= x < m && 0 <= y < m && (m - 1) * (m - 1) <= INT64_MAX
    ensures 0 <= x * y <= INT64_MAX
  {
    var k := m - 1;
    NonNegative(x, y);
    NonNegative(x, k - y);
    NonNegative(k - x, k);
    assert x * (k - y) == x * k - x * y;
    assert (k - x) * k == k * k - x * k;
  }

  // ----- Fast exponentiation -----------------------------------------------

  /** What djlc_mod_pow returns: the power reduced, except that an exponent of
      zero or below gives 1 whatever the modulus. */
  function PowMod(b: int, e: int, m: nat): int
    requires m > 0
  {
    if e <= 0 then 1 else Pow(b, e) % m
  }

  /** djlc_mod_pow's result is the reduced power exactly when the modulus is not
      1 or the exponent is positive. */
  lemma PowModReduced(b: int, e: nat, m: nat)
    requires m > 0
    ensures PowMod(b, e, m) == Pow(b, e) % m <==> m != 1 || e > 0
  {
    if e == 0 && m != 1 {
      assert 1 % m == 1;
    }
  }

  lemma PowModRange(b: int, e: int, m: nat)
    requires m > 0
    ensures 0 <= PowMod(b, e, m) < m <==> m != 1 || e > 0
  {
  }

  lemma PowModCong(b: int, e: nat, m: nat)
    requires m > 0
    ensures Cong(PowMod(b, e, m), Pow(b, e), m)
  {
    CongMod(Pow(b, e), m);
    CongRefl(1, m);
  }

  /** One round of the loop keeps result * base^exp. */
  lemma PowRound(result: int, b: int, e: nat, m: nat)
    requires m > 0 && e > 0
    ensures e % 2 == 0 ==> Cong(result * Pow((b * b) % m, e / 2), result * Pow(b, e), m)
    ensures e % 2 == 1 ==> Cong((result * b) % m * Pow((b * b) % m, e / 2), result * Pow(b, e), m)
  {
    var half := Pow(b * b, e / 2);
    CongMod(b * b, m);
    CongPow((b * b) % m, b * b, e / 2, m);
    PowSquare(b, e / 2);
    if e % 2 == 0 {
      CongScale(Pow((b * b) % m, e / 2), half, result, m);
    } else {
      CongMod(result * b, m);
      CongMul((result * b) % m, result * b, Pow((b * b) % m, e / 2), half, m);
      assert Pow(b, e) == b * Pow(b, 2 * (e / 2));
      assert (result * b) * half == result * (b * half);
    }
  }

  method ModPow(b: int64, exp: int64, m: int64) returns (result: int64)
    requires Safe(m)
    ensures result as int == PowMod(b as int, exp as int, m as int)
  {
    result := 1;
    var base := Mod(b, m);
    var e := exp;
    if exp > 0 {
      StartPow(b as int, exp as int, m as int);
    }
    while e > 0
      invariant exp <= 0 ==> e == exp && result == 1
      invariant exp > 0 ==> 0 <= e <= exp
      invariant exp > 0 && e == 0 ==> 0 <= result < m
      invariant exp > 0 ==> Cong(result as int * Pow(base as int, e as int), Pow(b as int, exp as int), m as int)
    {
      PowRound(result as int, base as int, e as int, m as int);
      ghost var before := result as int * Pow(base as int, e as int);
      if e % 2 == 1 {
        result := ModMul(result, base, m);
      }
      base := ModMul(base, base, m);
      e := e / 2;
      CongTrans(result as int * Pow(base as int, e as int), before, Pow(b as int, exp as int), m as int);
    }
    if exp > 0 {
      var full := Pow(b as int, exp as int);
      CongMod(full, m as int);
      CongSym(full % m as int, full, m as int);
      CongTrans(result as int, full, full % m as int, m as int);
      CongUnique(result as int, full % m as int, m as int);
    }
  }

  lemma StartPow(b: int, e: nat, m: nat)
    requires m > 0
    ensures Cong(1 * Pow(b % m, e), Pow(b, e), m)
  {
    CongMod(b, m);
    CongPow(b % m, b, e, m);
  }

  method ModInv(a: int64, m: int64) returns (r: int64)
    requires Safe(m)
    ensures r as int == PowMod(a as int, m as int - 2, m as int)
    ensures 0 <= r < m <==> m != 1
    ensures Prime(m as int) ==> ((a as int * r as int) % m as int == 1 <==> a as int % m as int != 0)
  {
    r := ModPow(a, m - 2, m);
    PowModRange(a as int, m as int - 2, m as int);
    if Prime(m as int) {
      InverseIff(a as int, m as int);
      CongIffMod(a as int * r as int, 1, m as int);
    }
  }

  /** For a prime modulus djlc_mod_inv inverts exactly the residues it can. */
  lemma InverseIff(a: int, p: nat)
    requires Prime(p)
    ensures Cong(a * PowMod(a, p - 2, p), 1, p) <==> a % p != 0
  {
    PowModCong(a, p - 2, p);
    CongScale(PowMod(a, p - 2, p), Pow(a, p - 2), a, p);
    FermatInverse(p, a);
    CongSame(a * PowMod(a, p - 2, p), a * Pow(a, p - 2), 1, p);
    CongIffMod(a, 0, p);
  }

  /** For a prime modulus the quotient times b is a, unless b is zero and a is not. */
  method ModDiv(a: int64, b: int64, m: int64) returns (r: int64)
    requires Safe(m)
    ensures r as int == (a as int * PowMod(b as int, m as int - 2, m as int)) % m as int
    ensures 0 <= r < m
    ensures Prime(m as int) ==>
              ((r as int * b as int) % m as int == a as int % m as int
               <==> b as int % m as int != 0 || a as int % m as int == 0)
  {
    var inv := ModInv(b, m);
    r := ModMul(a, inv, m);
    if Prime(m as int) {
      DivisionUndone(a as int, b as int, inv as int, r as int, m as int);
    }
  }

  lemma DivisionUndone(a: int, b: int, inv: int, r: int, p: nat)
    requires Prime(p) && inv == PowMod(b, p - 2, p) && r == (a * inv) % p
    ensures (r * b) % p == a % p <==> b % p != 0 || a % p == 0
  {
    if b % p != 0 {
      InverseIff(b, p);
      CongMod(a * inv, p);
      CongScale(r, a * inv, b, p);
      CongScale(b * inv, 1, a, p);
      assert (a * inv) * b == a * (b * inv);
      CongTrans(r * b, a * (b * inv), a * 1, p);
      CongIffMod(r * b, a, p);
    } else {
      CongIffMod(b, 0, p);
      CongScale(b, 0, r, p);
      CongIffMod(r * b, 0, p);
    }
  }

  // ----- Factorial tables --------------------------------------------------

  /** f[i] stands for i!. */
  ghost predicate HoldsFactorials(f: seq<int64>, m: int) {
    forall i | 0 <= i < |f| :: Cong(f[i] as int, Fact(i), m)
  }

  /** Each product f[i] * g[i] is `unit` modulo m. */
  ghost predicate Products(f: seq<int64>, g: seq<int64>, unit: int, m: int) {
    |f| == |g| && forall i | 0 <= i < |f| :: Cong(f[i] as int * g[i] as int, unit, m)
  }

  class Factorials {
    const fact: array<int64>
    const invFact: array<int64>
    const size: int
    const mod: int64

    /** 1 when the table's last index is below the modulus, else 0. */
    function Unit(): int {
      if size - 1 < mod as int then 1 else 0
    }

    ghost predicate Valid()
      reads fact, invFact
    {
      && Safe(mod)
      && 1 <= size <= INT_MAX
      && fact.Length == size && invFact.Length == size
      && HoldsFactorials(fact[..], mod as int)
      && (Prime(mod as int) ==> Products(fact[..], invFact[..], Unit(), mod as int))
    }

    /** For a prime modulus every entry meets its inverse exactly when n < mod. */
    constructor (n: int, mod: int64)
      requires 0 <= n < INT_MAX && Safe(mod)
      ensures Valid() && fresh(fact) && fresh(invFact)
      ensures this.size == n + 1 && this.mod == mod
      ensures Prime(mod as int) ==> forall i | 0 <= i <= n ::
                Cong(fact[i] as int * invFact[i] as int, 1, mod as int) <==> n < mod as int
    {
      var f := new int64[n + 1];
      var g := new int64[n + 1];
      FillFactorials(f, mod);
      FillInverses(f, g, mod);
      this.fact := f;
      this.invFact := g;
      this.size := n + 1;
      this.mod := mod;
      new;
      if Prime(mod as int) {
        TopProduct(f[n] as int, n, mod as int);
        TransferUnit(f[..], g[..], f[n] as int * PowMod(f[n] as int, mod as int - 2, mod as int), Unit(), mod as int);
        UnitIff(f[..], g[..], Unit(), mod as int);
        assert forall i | 0 <= i <= n :: f[i] == f[..][i] && g[i] == g[..][i];
      }
    }

    /** C(n, r) modulo a prime larger than every table index, and 0 for other primes. */
    method NCr(n: int, r: int) returns (c: int64)
      requires Valid() && n < size
      ensures r < 0 || r > n ==> c == 0
      ensures 0 <= r <= n && Prime(mod as int) ==> c as int == (Choose(n, r) * Unit()) % mod as int
    {
      if r < 0 || r > n {
        return 0;
      }
      var denominator := ModMul(invFact[r], invFact[n - r], mod);
      c := ModMul(fact[n], denominator, mod);
      if Prime(mod as int) {
        Quotient(n, r, fact[..], invFact[..], Unit(), mod);
      }
    }

    /** n! / (n - r)! modulo a prime larger than every table index, and 0 for other primes. */
    method NPr(n: int, r: int) returns (c: int64)
      requires Valid() && n < size
      ensures r < 0 || r > n ==> c == 0
      ensures 0 <= r <= n && Prime(mod as int) ==> c as int == (Choose(n, r) * Fact(r) * Unit()) % mod as int
    {
      if r < 0 || r > n {
        return 0;
      }
      c := ModMul(fact[n], invFact[n - r], mod);
      if Prime(mod as int) {
        Arrangements(n, r, fact[..], invFact[..], Unit(), mod);
      }
    }
  }

  method FillFactorials(f: array<int64>, mod: int64)
    requires 1 <= f.Length <= INT_MAX && Safe(mod)
    modifies f
    ensures HoldsFactorials(f[..], mod as int)
  {
    f[0] := 1;
    CongRefl(1, mod as int);
    for i := 1 to f.Length
      invariant forall k | 0 <= k < i :: Cong(f[k] as int, Fact(k), mod as int)
    {
      f[i] := ModMul(f[i - 1], i as int64, mod);
      NextFact(f[i - 1] as int, i, mod as int);
    }
  }

  method FillInverses(f: array<int64>, g: array<int64>, mod: int64)
    requires 1 <= f.Length == g.Length <= INT_MAX && f != g && Safe(mod)
    requires HoldsFactorials(f[..], mod as int)
    modifies g
    ensures var last := f[f.Length - 1] as int;
            Products(f[..], g[..], last * PowMod(last, mod as int - 2, mod as int), mod as int)
  {
    var n := f.Length - 1;
    g[n] := ModInv(f[n], mod);
    ghost var product := f[n] as int * g[n] as int;
    CongRefl(product, mod as int);
    for i := n downto 0
      invariant forall k | i <= k <= n :: Cong(f[k] as int * g[k] as int, product, mod as int)
    {
      g[i] := ModMul(g[i + 1], (i + 1) as int64, mod);
      assert Cong(f[..][i] as int, Fact(i), mod as int) && Cong(f[..][i + 1] as int, Fact(i + 1), mod as int);
      PreviousInverse(f[i] as int, f[i + 1] as int, g[i + 1] as int, i, product, mod as int);
    }
  }

  lemma NextFact(f: int, i: nat, m: nat)
    requires m > 0 && i >= 1 && Cong(f, Fact(i - 1), m)
    ensures Cong((f * i) % m, Fact(i), m)
  {
    CongScale(f, Fact(i - 1), i, m);
    CongMod(f * i, m);
    CongTrans((f * i) % m, f * i, Fact(i), m);
  }

  /** Going down one index keeps the product of factorial and inverse. */
  lemma PreviousInverse(f: int, next: int, g: int, i: nat, product: int, m: nat)
    requires m > 0 && Cong(f, Fact(i), m) && Cong(next, Fact(i + 1), m) && Cong(next * g, product, m)
    ensures Cong(f * ((g * (i + 1)) % m), product, m)
  {
    CongScale(f, Fact(i), i + 1, m);
    CongSym(next, Fact(i + 1), m);
    CongTrans((i + 1) * f, Fact(i + 1), next, m);
    CongScale((i + 1) * f, next, g, m);
    CongTrans((i + 1) * f * g, next * g, product, m);
    SwapFactors(f, g, i + 1);
    ReduceFactor(f, g * (i + 1), product, m);
  }

  lemma SwapFactors(f: int, g: int, k: int)
    ensures f * (g * k) == k * f * g
  {
  }

  /** A factor may be reduced first. */
  lemma ReduceFactor(f: int, x: int, c: int, m: nat)
    requires m > 0 && Cong(f * x, c, m)
    ensures Cong(f * (x % m), c, m)
  {
    CongMod(x, m);
    CongScale(x % m, x, f, m);
    CongTrans(f * (x % m), f * x, c, m);
  }

  lemma TopProduct(f: int, n: nat, p: nat)
    requires Prime(p) && Cong(f, Fact(n), p)
    ensures Cong(f * PowMod(f, p - 2, p), if n < p then 1 else 0, p)
  {
    InverseIff(f, p);
    CongIffMod(f, 0, p);
    CongSame(f, Fact(n), 0, p);
    PrimeDividesFact(p, n);
    if n >= p {
      CongScale(f, 0, PowMod(f, p - 2, p), p);
    }
  }

  lemma TransferUnit(f: seq<int64>, g: seq<int64>, product: int, unit: int, m: int)
    requires Products(f, g, product, m) && Cong(product, unit, m)
    ensures Products(f, g, unit, m)
  {
    forall i | 0 <= i < |f|
      ensures Cong(f[i] as int * g[i] as int, unit, m)
    {
      CongTrans(f[i] as int * g[i] as int, product, unit, m);
    }
  }

  lemma UnitIff(f: seq<int64>, g: seq<int64>, unit: int, p: nat)
    requires Prime(p) && Products(f, g, unit, p) && (unit == 0 || unit == 1)
    ensures forall i | 0 <= i < |f| :: Cong(f[i] as int * g[i] as int, 1, p) <==> unit == 1
  {
    SmallNotCongZero(p, 1);
    forall i | 0 <= i < |f|
      ensures Cong(f[i] as int * g[i] as int, 1, p) <==> unit == 1
    {
      CongSame(f[i] as int * g[i] as int, unit, 1, p);
      if Cong(0, 1, p) {
        CongSym(0, 1, p);
      }
    }
  }

  lemma Regroup(c: int, fr: int, fs: int, gr: int, gs: int)
    ensures c * (fr * fs) * (gr * gs) == c * ((fr * gr) * (fs * gs))
  {
    assert (fr * fs) * (gr * gs) == (fr * gr) * (fs * gs);
  }

  lemma RegroupThree(c: int, b: int, fs: int, gs: int)
    ensures c * (b * fs) * gs == (c * b) * (fs * gs)
  {
  }

  /** With C * (r! (n-r)!) = n!, multiplying n! by both inverses leaves C. */
  lemma QuotientCong(c: int, fn: int, fr: int, fs: int, gr: int, gs: int, unit: int, m: int)
    requires Cong(c * (fr * fs), fn, m)
    requires Cong(fr * gr, unit, m) && Cong(fs * gs, unit, m) && unit * unit == unit
    ensures Cong(fn * (gr * gs), c * unit, m)
  {
    CongScale(c * (fr * fs), fn, gr * gs, m);
    CongMul(fr * gr, unit, fs * gs, unit, m);
    CongScale((fr * gr) * (fs * gs), unit, c, m);
    Regroup(c, fr, fs, gr, gs);
    CongSame(c * (fr * fs) * (gr * gs), fn * (gr * gs), c * unit, m);
  }

  /** The table's entries for r and n - r multiply up to n!'s entry. */
  lemma EntriesMultiply(n: nat, r: nat, f: seq<int64>, m: int)
    requires r <= n < |f| && HoldsFactorials(f, m)
    ensures Cong(Choose(n, r) * (f[r] as int * f[n - r] as int), f[n] as int, m)
  {
    ChooseFactorials(n, r);
    CongMul(f[r] as int, Fact(r), f[n - r] as int, Fact(n - r), m);
    CongScale(f[r] as int * f[n - r] as int, Fact(r) * Fact(n - r), Choose(n, r), m);
    CongSym(f[n] as int, Fact(n), m);
    CongTrans(Choose(n, r) * (f[r] as int * f[n - r] as int), Fact(n), f[n] as int, m);
  }

  lemma Quotient(n: nat, r: nat, f: seq<int64>, g: seq<int64>, unit: int, mod: int64)
    requires Safe(mod) && r <= n < |f| && unit * unit == unit
    requires HoldsFactorials(f, mod as int) && Products(f, g, unit, mod as int)
    ensures ModMul(f[n], ModMul(g[r], g[n - r], mod), mod) as int == (Choose(n, r) * unit) % mod as int
  {
    var m, x := mod as int, g[r] as int * g[n - r] as int;
    EntriesMultiply(n, r, f, m);
    QuotientCong(Choose(n, r), f[n] as int, f[r] as int, f[n - r] as int, g[r] as int, g[n - r] as int, unit, m);
    ReduceFactor(f[n] as int, x, Choose(n, r) * unit, m);
    CongIffMod(f[n] as int * (x % m), Choose(n, r) * unit, m);
  }

  lemma Arrangements(n: nat, r: nat, f: seq<int64>, g: seq<int64>, unit: int, mod: int64)
    requires Safe(mod) && r <= n < |f|
    requires HoldsFactorials(f, mod as int) && Products(f, g, unit, mod as int)
    ensures ModMul(f[n], g[n - r], mod) as int == (Choose(n, r) * Fact(r) * unit) % mod as int
  {
    var m := mod as int;
    var c, a, b, fs, gs := Choose(n, r), Fact(r), f[r] as int, f[n - r] as int, g[n - r] as int;
    EntriesMultiply(n, r, f, m);
    CongScale(c * (b * fs), f[n] as int, gs, m);
    CongScale(b, a, c, m);
    CongMul(c * b, c * a, fs * gs, unit, m);
    RegroupThree(c, b, fs, gs);
    CongSame(c * (b * fs) * gs, f[n] as int * gs, c * a * unit, m);
    CongIffMod(f[n] as int * gs, c * a * unit, m);
  }
}
