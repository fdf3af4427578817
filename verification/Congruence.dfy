/** Congruences: x % m == y % m under sums, products and powers. */
module Congruence {
  import opened Numbers

  ghost predicate Congruent(x: int, y: int, m: int)
    requires m > 0
  {
    x % m == y % m
  }

  lemma ReflCongruent(x: int, m: int)
    requires m > 0
    ensures Congruent(x, x, m)
  {}

  lemma CongruentIfDiffer(x: int, y: int, m: int, k: int)
    requires m > 0 && x == y + k * m
    ensures Congruent(x, y, m)
  {
    DivMod(y, m);
    Distribute(y / m, k, m);
    DivModUnique(x, m, y / m + k, y % m);
  }

  lemma DifferIfCongruent(x: int, y: int, m: int) returns (k: int)
    requires m > 0 && Congruent(x, y, m)
    ensures x == y + k * m
  {
    k := x / m - y / m;
    DivMod(x, m);
    DivMod(y, m);
    Distribute(x / m, y / m, m);
  }

  lemma CongruentMod(x: int, m: int)
    requires m > 0
    ensures Congruent(x % m, x, m) && 0 <= x % m < m
  {
    DivMod(x, m);
    CongruentIfDiffer(x, x % m, m, x / m);
  }

  lemma CongruentSmall(x: int, y: int, m: int)
    requires m > 0 && Congruent(x, y, m) && 0 <= x < m
    ensures x == y % m
  {
    DivModUnique(x, m, 0, x);
  }

  lemma CongruentAdd(x: int, y: int, u: int, v: int, m: int)
    requires m > 0 && Congruent(x, y, m) && Congruent(u, v, m)
    ensures Congruent(x + u, y + v, m) && Congruent(x - u, y - v, m)
  {
    var k := DifferIfCongruent(x, y, m);
    var l := DifferIfCongruent(u, v, m);
    Distribute(k, l, m);
    CongruentIfDiffer(x + u, y + v, m, k + l);
    CongruentIfDiffer(x - u, y - v, m, k - l);
  }

  lemma CongruentMul(x: int, y: int, u: int, v: int, m: int)
    requires m > 0 && Congruent(x, y, m) && Congruent(u, v, m)
    ensures Congruent(x * u, y * v, m)
  {
    var k := DifferIfCongruent(x, y, m);
    var l := DifferIfCongruent(u, v, m);
    MulDiffer(x, y, u, v, m, k, l);
    CongruentIfDiffer(x * u, y * v, m, y * l + k * u);
  }

  lemma MulDiffer(x: int, y: int, u: int, v: int, m: int, k: int, l: int)
    requires x == y + k * m && u == v + l * m
    ensures x * u == y * v + (y * l + k * u) * m
  {
    Distribute(y, k * m, u);
    Distribute(v, l * m, y);
    MulAssoc(y, l, m);
    MulAssoc(k, m, u);
    MulAssoc(k, u, m);
    Distribute(y * l, k * u, m);
  }

  lemma {:induction false} CongruentPow(x: int, y: int, e: nat, m: int)
    requires m > 0 && Congruent(x, y, m)
    ensures Congruent(Pow(x, e), Pow(y, e), m)
  {
    if e > 0 {
      CongruentPow(x, y, e - 1, m);
      CongruentMul(x, y, Pow(x, e - 1), Pow(y, e - 1), m);
    }
  }

  /** A congruence holds modulo every divisor of the modulus. */
  lemma CongruentDivisor(x: int, y: int, m: int, d: int)
    requires m > 0 && d > 0 && m * d > 0 && Congruent(x, y, m * d)
    ensures Congruent(x, y, m)
  {
    MulLt(0, m, d);
    var k := DifferIfCongruent(x, y, m * d);
    MulAssoc(k, d, m);
    CongruentIfDiffer(x, y, m, k * d);
  }

  lemma ChainCongruent(x: int, y: int, z: int, m: nat)
    requires m > 0 && Congruent(x, y, m) && Congruent(y, z, m)
    ensures Congruent(x, z, m)
  {}

  /** A power of two cancels modulo an odd number. */
  lemma {:induction false} CancelPower(a: int, b: int, e: nat, m: nat)
    requires m % 2 == 1 && Congruent(a * Pow(2, e), b * Pow(2, e), m)
    ensures Congruent(a, b, m)
  {
    hide Congruent;
    if e > 0 {
      var h := (m + 1) / 2;
      var x, y := a * Pow(2, e - 1), b * Pow(2, e - 1);
      HalveTwice(a, Pow(2, e - 1), h, m);
      HalveTwice(b, Pow(2, e - 1), h, m);
      ReflCongruent(h, m);
      CongruentMul(h, h, a * Pow(2, e), b * Pow(2, e), m);
      assert Congruent(x, y, m) by { SameResidue(x, y, h * (a * Pow(2, e)), h * (b * Pow(2, e)), m); }
      CancelPower(a, b, e - 1, m);
    } else {
      assert Pow(2, 0) == 1;
    }
  }

  lemma SameResidue(x: int, y: int, u: int, v: int, m: nat)
    requires m > 0 && Congruent(u, x, m) && Congruent(v, y, m) && Congruent(u, v, m)
    ensures Congruent(x, y, m)
  {}

  lemma HalveTwice(a: int, p: int, h: nat, m: nat)
    requires m % 2 == 1 && h == (m + 1) / 2
    ensures Congruent(h * (a * (2 * p)), a * p, m)
  {
    MulAssoc(a, 2, p);
    MulAssoc(h, 2, a * p);
    Distribute(m, 1, a * p);
    MulAssoc(m, a, p);
    CongruentIfDiffer(h * (a * (2 * p)), a * p, m, a * p);
  }
}
