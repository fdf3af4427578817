/** The integers behind the digit arrays: powers, the place value of a digit
    sequence in base 2^28, and the order it induces. */
module Numbers {

  // DIGIT_BIT is 28, a digit is an unsigned 32-bit word and a column sum an unsigned 64-bit one.
  const DIGIT_BIT: nat := 28
  const BASE := 0x1000_0000
  const DIGIT_WORD := 0x1_0000_0000
  const COLUMN_WORD := 0x1_0000_0000_0000_0000

  function Min(x: int, y: int): int {
    if x < y then x else y
  }

  function Pow(b: int, e: nat): int {
    if e == 0 then 1 else b * Pow(b, e - 1)
  }

  /** The weight of digit position i. */
  function Weight(i: nat): (w: nat)
    ensures w > 0
  {
    if i == 0 then 1 else BASE * Weight(i - 1)
  }

  ghost predicate Digits(s: seq<nat>) {
    forall k | 0 <= k < |s| :: s[k] < BASE
  }

  /** The value of the n least significant digits of s. */
  function Val(s: seq<nat>, n: nat): nat
    requires n <= |s|
  {
    if n == 0 then 0 else MulNat(s[n - 1], Weight(n - 1)); Val(s, n - 1) + s[n - 1] * Weight(n - 1)
  }

  /** The n least significant digits of s, zeros beyond the used ones. */
  function Extend(s: seq<nat>, used: nat, n: nat): (r: seq<nat>)
    requires used <= n && used <= |s|
    ensures |r| == n
    ensures forall k | 0 <= k < used :: r[k] == s[k]
    ensures forall k | used <= k < n :: r[k] == 0
    ensures Val(r, n) == Val(s, used)
  {
    var r := s[..used] + seq(n - used, _ => 0);
    ValFrame(s, r, used);
    ValZeros(r, used, n);
    r
  }

  lemma MulNat(x: nat, y: nat)
    ensures x * y >= 0
  {}

  lemma MulLe(x: int, y: int, z: int)
    requires x <= y && 0 <= z
    ensures x * z <= y * z && z * x <= z * y
  {}

  lemma MulLt(x: int, y: int, z: int)
    requires x < y && 0 < z
    ensures x * z < y * z && z * x < z * y
  {}

  lemma MulLtCancel(x: int, y: int, z: int)
    requires x * z < y * z && 0 < z
    ensures x < y
  {
    if y <= x { MulLe(y, x, z); }
  }

  lemma MulAssoc(x: int, y: int, z: int)
    ensures x * y * z == x * (y * z) == y * (x * z)
  {}

  lemma MulExchange(a: int, b: int, x: int, y: int)
    ensures (a * b) * (x * y) == (a * x) * (b * y)
  {
    MulAssoc(a, b, x * y);
    MulAssoc(b, x, y);
    MulAssoc(a, x, b * y);
  }

  lemma Distribute(x: int, y: int, z: int)
    ensures (x + y) * z == x * z + y * z && z * (x + y) == z * x + z * y
    ensures (x - y) * z == x * z - y * z && z * (x - y) == z * x - z * y
  {}

  lemma CarryWeight(d: int, u: int, t: int, w: int)
    requires d + u * BASE == t
    ensures d * w + u * (BASE * w) == t * w
  {}

  lemma DivMod(x: int, m: int)
    requires m > 0
    ensures x == m * (x / m) + x % m && 0 <= x % m < m
    ensures x >= 0 ==> x / m >= 0
  {}

  lemma DivModUnique(x: int, m: int, q: int, r: int)
    requires 0 < m && x == q * m + r && 0 <= r < m
    ensures x / m == q && x % m == r
  {
    var q', r' := x / m, x % m;
    assert x == m * q' + r';
    Distribute(q, q', m);
    if q < q' {
      MulLe(1, q' - q, m);
    } else if q' < q {
      MulLe(1, q - q', m);
    }
  }

  // ----- powers

  lemma PowPos(b: int, e: nat)
    requires b > 0
    ensures Pow(b, e) > 0
  {
    if e > 0 { PowPos(b, e - 1); MulLe(1, b, Pow(b, e - 1)); }
  }

  lemma {:induction false} PowAdd(b: int, m: nat, n: nat)
    ensures Pow(b, m + n) == Pow(b, m) * Pow(b, n)
  {
    if m > 0 {
      PowAdd(b, m - 1, n);
      MulAssoc(b, Pow(b, m - 1), Pow(b, n));
    }
  }

  lemma {:induction false} PowMul(b: int, m: nat, n: nat)
    ensures m * n >= 0 && Pow(Pow(b, m), n) == Pow(b, m * n)
  {
    MulNat(m, n);
    if n > 0 {
      PowMul(b, m, n - 1);
      MulNat(m, n - 1);
      Distribute(n - 1, 1, m);
      PowAdd(b, m, m * (n - 1));
    }
  }

  lemma {:induction false} PowProduct(a: int, b: int, e: nat)
    ensures Pow(a * b, e) == Pow(a, e) * Pow(b, e)
  {
    if e > 0 {
      PowProduct(a, b, e - 1);
      var x, y := Pow(a, e - 1), Pow(b, e - 1);
      MulExchange(a, b, x, y);
    }
  }

  lemma {:induction false} PowMono(b: int, m: nat, n: nat)
    requires b >= 1 && m <= n
    ensures Pow(b, m) <= Pow(b, n)
  {
    PowAdd(b, m, n - m);
    PowPos(b, m);
    PowPos(b, n - m);
    MulLe(1, Pow(b, n - m), Pow(b, m));
  }

  lemma {:induction false} PowStrict(b: int, m: nat, n: nat)
    requires b >= 2 && m < n
    ensures Pow(b, m) < Pow(b, n)
  {
    PowMono(b, m + 1, n);
    PowPos(b, m);
    MulLe(2, b, Pow(b, m));
  }

  lemma PowDigitBits()
    ensures Pow(2, DIGIT_BIT) == BASE
  {
    PowAdd(2, 14, 14);
    assert Pow(2, 7) == 128;
    PowAdd(2, 7, 7);
  }

  // ----- weights

  lemma WeightStep(i: nat)
    ensures Weight(i + 1) == BASE * Weight(i)
  {}

  lemma SmallWeights()
    ensures Weight(0) == 1 && Weight(1) == BASE && Weight(2) == BASE * BASE
  {
    assert Weight(1) == BASE;
  }

  lemma {:induction false} WeightAdd(m: nat, n: nat)
    ensures Weight(m + n) == Weight(m) * Weight(n)
  {
    if m > 0 {
      WeightAdd(m - 1, n);
      MulAssoc(BASE, Weight(m - 1), Weight(n));
    }
  }

  lemma {:induction false} WeightMono(m: nat, n: nat)
    requires m <= n
    ensures Weight(m) <= Weight(n)
  {
    WeightAdd(m, n - m);
    MulLe(1, Weight(n - m), Weight(m));
  }

  lemma {:induction false} WeightIsPow(n: nat)
    ensures Weight(n) == Pow(2, DIGIT_BIT * n)
  {
    if n > 0 {
      WeightIsPow(n - 1);
      PowDigitBits();
      PowAdd(2, DIGIT_BIT, DIGIT_BIT * (n - 1));
    }
  }

  // ----- place values

  lemma ValZero(s: seq<nat>)
    ensures Val(s, 0) == 0
  {}

  lemma ValStep(s: seq<nat>, n: nat)
    requires n < |s|
    ensures Val(s, n + 1) == Val(s, n) + s[n] * Weight(n)
  {}

  lemma {:induction false} ValFrame(s: seq<nat>, t: seq<nat>, n: nat)
    requires n <= |s| && n <= |t|
    requires forall k | 0 <= k < n :: s[k] == t[k]
    ensures Val(s, n) == Val(t, n)
  {
    if n > 0 { ValFrame(s, t, n - 1); }
  }

  lemma {:induction false} ValBound(s: seq<nat>, n: nat)
    requires n <= |s| && forall k | 0 <= k < n :: s[k] < BASE
    ensures Val(s, n) < Weight(n)
  {
    if n > 0 {
      ValBound(s, n - 1);
      var w := Weight(n - 1);
      MulLe(s[n - 1], BASE - 1, w);
      Distribute(BASE, 1, w);
    }
  }

  /** Zero digits above position m do not count. */
  lemma {:induction false} ValZeros(s: seq<nat>, m: nat, n: nat)
    requires m <= n <= |s| && forall k | m <= k < n :: s[k] == 0
    ensures Val(s, n) == Val(s, m)
  {
    if m < n { ValZeros(s, m, n - 1); }
  }

  /** A nonzero top digit bounds the value from below. */
  lemma {:induction false} ValLower(s: seq<nat>, n: nat)
    requires 0 < n <= |s| && s[n - 1] > 0
    ensures Weight(n - 1) <= s[n - 1] * Weight(n - 1) <= Val(s, n)
  {
    MulLe(1, s[n - 1], Weight(n - 1));
  }

  /** Place values compare like their most significant differing digit. */
  lemma {:induction false} ValGreater(s: seq<nat>, t: seq<nat>, i: nat, n: nat)
    requires i < n <= |s| && n <= |t| && s[i] > t[i]
    requires forall k | 0 <= k < i :: t[k] < BASE
    requires forall k | i < k < n :: s[k] == t[k]
    ensures Val(s, n) > Val(t, n)
  {
    if i == n - 1 {
      ValBound(t, i);
      var w := Weight(i);
      MulLe(t[i] + 1, s[i], w);
      Distribute(t[i], 1, w);
    } else {
      ValGreater(s, t, i, n - 1);
    }
  }

  /** Replacing one digit moves the value by the difference at its weight. */
  lemma {:induction false} ValSet(s: seq<nat>, k: nat, d: nat, n: nat)
    requires k < n <= |s|
    ensures Val(s[k := d], n) == Val(s, n) + (d - s[k]) * Weight(k)
  {
    if k == n - 1 {
      ValFrame(s, s[k := d], k);
      var was: int := s[k];
      Distribute(d, was, Weight(k));
    } else {
      ValSet(s, k, d, n - 1);
    }
  }

  /** Splitting a digit sequence at position k. */
  lemma {:induction false} ValSplit(s: seq<nat>, k: nat, n: nat)
    requires k <= n <= |s|
    ensures Val(s, n) == Val(s, k) + Weight(k) * Val(s[k..], n - k)
  {
    if k < n {
      ValSplit(s, k, n - 1);
      var hi := Val(s[k..], n - 1 - k);
      WeightAdd(k, n - 1 - k);
      MulAssoc(s[n - 1], Weight(k), Weight(n - 1 - k));
      Distribute(hi, s[n - 1] * Weight(n - 1 - k), Weight(k));
    }
  }
}
