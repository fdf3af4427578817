/** What RSA rests on: Euclid's lemma, Fermat's little theorem and the Chinese remainder theorem. */
module NumberTheory {
  import opened Numbers
  import opened Congruence

  ghost predicate Prime(p: int) {
    p > 1 && forall d | 1 < d < p :: p % d != 0
  }

  // ----- Euclid's lemma

  lemma {:induction false} EuclidSmall(p: int, k: int, b: int)
    requires Prime(p) && 0 < k < p && (k * b) % p == 0
    ensures b % p == 0
    decreases k
  {
    if k == 1 {
      assert k * b == b;
    } else {
      var q, r := p / k, p % k;
      DivMod(p, k);
      RemainderMultiple(p, k, b, q, r);
      EuclidSmall(p, r, b);
    }
  }

  lemma RemainderMultiple(p: int, k: int, b: int, q: int, r: int)
    requires p > 0 && p == k * q + r && (k * b) % p == 0
    ensures (r * b) % p == 0
  {
    var j := k * b / p;
    DivMod(k * b, p);
    Distribute(k * q, r, b);
    MulAssoc(k, q, b);
    MulAssoc(q, k, b);
    MulAssoc(q, p, j);
    Distribute(b, q * j, p);
    DivModUnique(r * b, p, b - q * j, 0);
  }

  /** A prime that divides a product divides a factor. */
  lemma Euclid(p: int, a: int, b: int)
    requires Prime(p) && (a * b) % p == 0
    ensures a % p == 0 || b % p == 0
  {
    if a % p != 0 {
      DivMod(a, p);
      CongruentMod(a, p);
      CongruentMul(a % p, a, b, b, p);
      EuclidSmall(p, a % p, b);
    }
  }

  // ----- the binomial theorem

  function Binomial(n: nat, k: nat): nat {
    if k == 0 then 1 else if n == 0 then 0 else Binomial(n - 1, k - 1) + Binomial(n - 1, k)
  }

  lemma {:induction false} Absorption(n: nat, k: nat)
    requires n > 0 && k > 0
    ensures k * Binomial(n, k) == n * Binomial(n - 1, k - 1)
  {
    if n == 1 {
      if k > 1 {
        assert Binomial(0, k) == Binomial(0, k - 1) == 0;
      } else {
        assert Binomial(0, 0) == 1 && Binomial(0, 1) == 0;
      }
    } else {
      Absorption(n - 1, k);
      var b := Binomial(n - 1, k - 1);
      Distribute(k - 1, 1, b);
      Distribute(n - 1, 1, b);
      Distribute(b, Binomial(n - 1, k), k);
      if k > 1 {
        Absorption(n - 1, k - 1);
        Distribute(Binomial(n - 2, k - 2), Binomial(n - 2, k - 1), n - 1);
      } else {
        assert Binomial(n - 2, 0) == 1;
      }
    }
  }

  lemma {:induction false} BinomialBeyond(n: nat, k: nat)
    requires k > n
    ensures Binomial(n, k) == 0
  {
    if n > 0 {
      BinomialBeyond(n - 1, k - 1);
      BinomialBeyond(n - 1, k);
    }
  }

  lemma {:induction false} BinomialTop(n: nat)
    ensures Binomial(n, n) == 1
  {
    if n > 0 {
      BinomialTop(n - 1);
      BinomialBeyond(n - 1, n);
    }
  }

  /** The first m terms of (1 + a)^n. */
  function Terms(a: int, n: nat, m: nat): int {
    if m == 0 then 0 else Terms(a, n, m - 1) + Binomial(n, m - 1) * Pow(a, m - 1)
  }

  lemma {:induction false} TermsStep(a: int, n: nat, m: nat)
    ensures Terms(a, n + 1, m + 1) == a * Terms(a, n, m) + Terms(a, n, m + 1)
  {
    if m > 0 {
      TermsStep(a, n, m - 1);
      var x, y := Binomial(n, m - 1), Pow(a, m - 1);
      Distribute(x, Binomial(n, m), Pow(a, m));
      MulAssoc(x, a, y);
      Distribute(Terms(a, n, m - 1), x * y, a);
      MulAssoc(a, x, y);
    } else {
      assert Terms(a, n, 0) == Terms(a, n + 1, 0) == 0;
      assert Terms(a, n + 1, 1) == 1 * Pow(a, 0) == Terms(a, n, 1);
    }
  }

  lemma {:induction false} BinomialTheorem(a: int, n: nat)
    ensures Pow(a + 1, n) == Terms(a, n, n + 1)
  {
    if n > 0 {
      BinomialTheorem(a, n - 1);
      TermsStep(a, n - 1, n);
      BinomialBeyond(n - 1, n);
      Distribute(a, 1, Pow(a + 1, n - 1));
    } else {
      assert Terms(a, 0, 1) == 1 * Pow(a, 0);
    }
  }

  // ----- Fermat's little theorem

  lemma MiddleBinomial(p: nat, k: nat)
    requires Prime(p) && 0 < k < p
    ensures Binomial(p, k) % p == 0
  {
    Absorption(p, k);
    MultipleMod(p, Binomial(p - 1, k - 1));
    EuclidSmall(p, k, Binomial(p, k));
  }

  lemma MultipleMod(p: int, x: int)
    requires p > 0
    ensures (p * x) % p == 0
  {
    DivModUnique(p * x, p, x, 0);
  }

  lemma {:induction false} MiddleTerms(a: int, p: nat, m: nat)
    requires Prime(p) && 0 < m <= p
    ensures Congruent(Terms(a, p, m), 1, p)
  {
    if m == 1 {
      assert Terms(a, p, 0) == 0;
      assert Terms(a, p, 1) == 1 * Pow(a, 0);
    } else {
      MiddleTerms(a, p, m - 1);
      var x, y := Binomial(p, m - 1), Pow(a, m - 1);
      MiddleBinomial(p, m - 1);
      DivMod(x, p);
      MulAssoc(p, x / p, y);
      CongruentIfDiffer(Terms(a, p, m), Terms(a, p, m - 1), p, x / p * y);
    }
  }

  lemma NextPower(a: int, p: nat)
    requires Prime(p)
    ensures Congruent(Pow(a + 1, p), Pow(a, p) + 1, p)
  {
    BinomialTheorem(a, p);
    BinomialTop(p);
    MiddleTerms(a, p, p);
    assert Terms(a, p, p + 1) == Terms(a, p, p) + 1 * Pow(a, p);
    CongruentAdd(Terms(a, p, p), 1, Pow(a, p), Pow(a, p), p);
  }

  lemma {:induction false} FermatNat(a: nat, p: nat)
    requires Prime(p)
    ensures Congruent(Pow(a, p), a, p)
  {
    if a == 0 {
      assert Pow(0, p) == 0 * Pow(0, p - 1);
    } else {
      FermatNat(a - 1, p);
      NextPower(a - 1, p);
      CongruentAdd(Pow(a - 1, p), a - 1, 1, 1, p);
    }
  }

  /** a^(p-1) = 1 modulo p unless p divides a. */
  lemma Fermat(a: nat, p: nat)
    requires Prime(p) && a % p != 0
    ensures Congruent(Pow(a, p - 1), 1, p)
  {
    FermatNat(a, p);
    var x := Pow(a, p - 1);
    var k := DifferIfCongruent(Pow(a, p), a, p);
    Distribute(x, 1, a);
    MultipleMod(p, k);
    Euclid(p, a, x - 1);
    CongruentAdd(x - 1, 0, 1, 1, p);
  }

  // ----- exponents modulo p - 1

  lemma {:induction false} PowOne(e: nat)
    ensures Pow(1, e) == 1
  {
    if e > 0 { PowOne(e - 1); }
  }

  /** Exponents that differ by a multiple of p - 1 give the same power, unless p divides the base. */
  lemma PowerPeriod(a: nat, p: nat, e: nat, k: nat, n: nat)
    requires Prime(p) && a % p != 0 && n == (p - 1) * k
    ensures Congruent(Pow(a, e + n), Pow(a, e), p)
  {
    assert p > 1;
    hide Pow, Congruent, Prime;
    Fermat(a, p);
    PowAdd(a, e, n);
    PowMul(a, p - 1, k);
    CongruentPow(Pow(a, p - 1), 1, k, p);
    PowOne(k);
    TimesOne(Pow(a, e), Pow(a, n), p);
  }

  lemma TimesOne(x: int, y: int, p: int)
    requires p > 0 && Congruent(y, 1, p)
    ensures Congruent(x * y, x, p)
  {
    CongruentMul(x, x, y, 1, p);
  }

  lemma PowOfMultiple(a: nat, p: nat, e: nat)
    requires p > 0 && a % p == 0 && e > 0
    ensures Pow(a, e) % p == 0
  {
    DivMod(a, p);
    MulAssoc(p, a / p, Pow(a, e - 1));
    MultipleMod(p, a / p * Pow(a, e - 1));
  }

  /** Positive exponents congruent modulo p - 1 give the same power of every base. */
  lemma SamePower(a: nat, p: nat, e: nat, f: nat)
    requires Prime(p) && e > 0 && f > 0 && Congruent(e, f, p - 1)
    ensures Congruent(Pow(a, e), Pow(a, f), p)
  {
    if a % p == 0 {
      PowOfMultiple(a, p, e);
      PowOfMultiple(a, p, f);
    } else if e >= f {
      SamePowerFrom(a, p, e, f);
    } else {
      SamePowerFrom(a, p, f, e);
    }
  }

  lemma SamePowerFrom(a: nat, p: nat, e: nat, f: nat)
    requires Prime(p) && a % p != 0 && e >= f && Congruent(e, f, p - 1)
    ensures Congruent(Pow(a, e), Pow(a, f), p)
  {
    var k := DifferIfCongruent(e, f, p - 1);
    if k < 0 {
      MulLe(k, -1, p - 1);
    }
    MulNat(k, p - 1);
    PowerPeriod(a, p, f, k, k * (p - 1));
  }

  // ----- two prime moduli

  /** Numbers that agree modulo two different primes agree modulo their product. */
  lemma AgreeModProduct(x: int, y: int, p: int, q: int)
    requires Prime(p) && Prime(q) && p != q && Congruent(x, y, p) && Congruent(x, y, q)
    ensures p * q > 0 && Congruent(x, y, p * q)
  {
    MulLt(0, p, q);
    var k := DifferIfCongruent(x, y, p);
    var l := DifferIfCongruent(x, y, q);
    MultipleMod(q, l);
    PrimeMod(p, q);
    Euclid(q, p, k);
    DivMod(k, q);
    MulAssoc(q, k / q, p);
    MulAssoc(k / q, p, q);
    CongruentIfDiffer(x, y, p * q, k / q);
  }

  lemma PrimeMod(p: int, q: int)
    requires Prime(p) && Prime(q) && p != q
    ensures p % q != 0
  {
    if p < q {
      DivModUnique(p, q, 0, p);
    }
  }

  /** Garner's recombination of residues modulo p and q. */
  lemma Garner(m1: int, m2: int, p: int, q: int, inv: int, h: int)
    requires Prime(p) && Prime(q) && Congruent(q * inv, 1, p)
    requires h == ((m1 - m2) * inv) % p && 0 <= m2 < q
    ensures 0 <= h * q + m2 < p * q && Congruent(h * q + m2, m1, p) && Congruent(h * q + m2, m2, q)
  {
    CongruentMod((m1 - m2) * inv, p);
    CongruentMul(h, (m1 - m2) * inv, q, q, p);
    MulAssoc(m1 - m2, inv, q);
    CongruentMul(m1 - m2, m1 - m2, q * inv, 1, p);
    CongruentAdd(h * q, m1 - m2, m2, m2, p);
    CongruentIfDiffer(h * q + m2, m2, q, h);
    MulNat(h, q);
    MulLe(h + 1, p, q);
    Distribute(h, 1, q);
  }
}
