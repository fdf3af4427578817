/** Doubling, halving, shifts by any number of bits, and multiplication by one digit. */
module MpScale {
  import opened Numbers
  import opened MpCore
  import opened MpShift

  // ----- the digit loops

  /** The loop of mp_mul_2 and mp_mul_2d: n digits of a, shifted left by p = 2^d, into b. */
  method ShiftUpDigits(a: MpInt, b: MpInt, n: nat, p: nat, q: nat) returns (r: nat)
    requires n <= |a.dp| && n <= |b.dp| && Digits(a.dp) && Digits(b.dp)
    requires 0 < p && 0 < q && p * q == BASE
    modifies b`dp
    ensures |b.dp| == old(|b.dp|) && Digits(b.dp) && r < p
    ensures b.dp[n..] == old(b.dp[n..])
    ensures ScaledSoFar(b.dp, old(a.dp), p, n, r)
  {
    hide Val, Weight;
    ghost var s, b0 := a.dp, b.dp;
    r := 0;
    ScaleStart(b0, s, p);
    var x := 0;
    while x < n
      invariant 0 <= x <= n && r < p && |b.dp| == |b0| && Digits(b.dp)
      invariant a != b ==> a.dp == s
      invariant b.dp[x..] == b0[x..]
      invariant ScaledSoFar(b.dp, s, p, x, r)
    {
      assert a.dp[x] == s[x] by { assert b.dp[x] == b.dp[x..][0] == b0[x]; }
      ShiftUpDigit(a.dp[x], p, q, r);
      var rr := a.dp[x] / q;
      ghost var was, r0 := b.dp, r;
      b.dp := b.dp[x := (a.dp[x] * p + r) % BASE];
      r := rr;
      ScaleStep(was, b.dp, s, p, x, r0, r);
      x := x + 1;
      assert was[x..] == was[x - 1..][1..];
    }
  }

  /** The loop of mp_div_2 and mp_div_2d: n digits of a, shifted right by p = 2^d, into b. */
  method ShiftDownDigits(a: MpInt, b: MpInt, n: nat, p: nat, q: nat)
    requires n <= |a.dp| && n <= |b.dp| && Digits(a.dp) && Digits(b.dp)
    requires 0 < p && 0 < q && p * q == BASE
    modifies b`dp
    ensures |b.dp| == old(|b.dp|) && Digits(b.dp)
    ensures b.dp[n..] == old(b.dp[n..])
    ensures Val(b.dp, n) == Val(old(a.dp), n) / p
  {
    hide Val, Weight;
    ghost var s, b0 := a.dp, b.dp;
    var r := 0;
    ShrinkStart(b0, s, p, n);
    var x := n;
    while x > 0
      invariant 0 <= x <= n && 0 <= r < p && |b.dp| == |b0| && Digits(b.dp)
      invariant a != b ==> a.dp == s
      invariant b.dp[..x] == b0[..x] && b.dp[n..] == b0[n..]
      invariant ShrunkSoFar(b.dp, s, p, x, n, r)
    {
      x := x - 1;
      assert a.dp[x] == s[x] by { assert b.dp[x] == b.dp[..x + 1][x] == b0[x]; }
      ShiftDownDigit(a.dp[x], p, q, r);
      var rr := a.dp[x] % p;
      ghost var was, r0 := b.dp, r;
      b.dp := b.dp[x := a.dp[x] / p + r * q];
      r := rr;
      ShrinkStep(was, b.dp, s, p, x, n, r0, r);
      assert was[..x] == was[..x + 1][..x];
    }
    ShrinkEnd(b.dp, s, p, n, r);
  }

  // ----- doubling and halving

  /** A scaled number whose carry came out zero still has a nonzero top digit. */
  lemma ScaledTop(now: seq<nat>, a: seq<nat>, p: nat, n: nat)
    requires 0 < n && ScaledSoFar(now, a, p, n, 0) && Digits(now) && a[n - 1] > 0 && p >= 1
    ensures now[n - 1] > 0
  {
    ValLower(a, n);
    MulLe(1, p, Val(a, n));
    if now[n - 1] == 0 {
      ValZeros(now, n - 1, n);
      ValBound(now, n - 1);
    }
  }

  /** b = 2a. */
  method Mul2(a: MpInt, b: MpInt)
    requires a.Valid() && b.Valid()
    modifies b
    ensures b.Valid() && b.Int() == 2 * old(a.Int())
  {
    if |b.dp| < a.used + 1 {
      b.Grow(a.used + 1);
    }
    Mul2InPlace(a, b);
  }

  method Mul2InPlace(a: MpInt, b: MpInt)
    requires a.Valid() && b.Valid() && a.used < |b.dp|
    modifies b
    ensures b.Valid() && b.Int() == 2 * old(a.Int())
  {
    hide Val, Weight;
    ghost var s := a.dp;
    var n, sign, oldUsed := a.used, a.sign, b.used;
    b.used := n;
    var r := ShiftUpDigits(a, b, n, 2, BASE / 2);
    ScaleEnd(b.dp, s, 2, n, r);
    if r != 0 {
      b.dp := b.dp[n := 1];
      b.used := n + 1;
    } else if n > 0 {
      ScaledTop(b.dp, s, 2, n);
    }
    b.ClearAbove(oldUsed);
    b.sign := sign;
  }

  /** b = a / 2, the magnitude halved and the sign kept. */
  method Div2(a: MpInt, b: MpInt)
    requires a.Valid() && b.Valid()
    modifies b
    ensures b.Valid() && b.Mag() == old(a.Mag()) / 2
    ensures b.sign == if b.used == 0 then ZPos else old(a.sign)
  {
    hide Val, Weight;
    ghost var s := a.dp;
    var n, sign := a.used, a.sign;
    if |b.dp| < n {
      b.Grow(n);
    }
    ValFrame(s, a.dp, n);
    var oldUsed := b.used;
    b.used := n;
    ShiftDownDigits(a, b, n, 2, BASE / 2);
    b.ClearAbove(oldUsed);
    b.sign := sign;
    b.Clamp();
  }

  // ----- shifts by any number of bits

  lemma BitSplit(d: nat)
    requires d <= DIGIT_BIT
    ensures Pow(2, d) > 0 && Pow(2, DIGIT_BIT - d) > 0 && Pow(2, d) * Pow(2, DIGIT_BIT - d) == BASE
  {
    PowPos(2, d);
    PowPos(2, DIGIT_BIT - d);
    PowAdd(2, d, DIGIT_BIT - d);
    PowDigitBits();
  }

  lemma BitsAndDigits(b: nat)
    ensures Pow(2, b) == Weight(b / DIGIT_BIT) * Pow(2, b % DIGIT_BIT) > 0
  {
    WeightIsPow(b / DIGIT_BIT);
    PowAdd(2, DIGIT_BIT * (b / DIGIT_BIT), b % DIGIT_BIT);
    PowPos(2, b);
  }

  /** c = a * 2^b. The number may carry an unclamped top digit. */
  method Mul2d(a: MpInt, b: nat, c: MpInt)
    requires a.Wf() && c.Wf()
    modifies c
    ensures c.Valid() && c.Mag() == old(a.Mag()) * Pow(2, b)
    ensures c.sign == if c.used == 0 then ZPos else old(a.sign)
    ensures c.used <= old(a.used) + b / DIGIT_BIT + 1
    ensures |c.dp| >= old(a.used) + b / DIGIT_BIT + 1 && |c.dp| >= old(|c.dp|)
  {
    if a != c {
      Copy(a, c);
    }
    if |c.dp| < c.used + b / DIGIT_BIT + 1 {
      c.Grow(c.used + b / DIGIT_BIT + 1);
    }
    Mul2dInPlace(c, b);
  }

  method Mul2dInPlace(c: MpInt, b: nat)
    requires c.Wf() && |c.dp| > c.used + b / DIGIT_BIT
    modifies c
    ensures c.Valid() && c.Mag() == old(c.Mag()) * Pow(2, b)
    ensures c.sign == if c.used == 0 then ZPos else old(c.sign)
    ensures c.used <= old(c.used) + b / DIGIT_BIT + 1 && |c.dp| == old(|c.dp|)
  {
    hide Val, Weight, Pow;
    ghost var m := c.Mag();
    Lshd(c, b / DIGIT_BIT);
    ghost var w := Weight(b / DIGIT_BIT);
    var d := b % DIGIT_BIT;
    if d != 0 {
      BitSplit(d);
      ShiftUpBits(c, Pow(2, d), Pow(2, DIGIT_BIT - d));
    } else {
      assert Pow(2, d) == 1 by { PowZero(2); }
    }
    c.Clamp();
    BitsAndDigits(b);
    MulAssoc(m, w, Pow(2, d));
  }

  lemma PowZero(b: int)
    ensures Pow(b, 0) == 1 && Pow(b, 1) == b
  {}

  /** The part of mp_mul_2d below one digit; the final carry becomes a new top digit. */
  method ShiftUpBits(c: MpInt, p: nat, q: nat)
    requires c.Wf() && c.used < |c.dp| && 0 < p && 0 < q && p * q == BASE
    modifies c
    ensures c.Wf() && c.Mag() == old(c.Mag()) * p && c.sign == old(c.sign) && |c.dp| == old(|c.dp|)
    ensures c.used <= old(c.used) + 1
  {
    hide Val, Weight;
    ghost var s := c.dp;
    var n := c.used;
    var r := ShiftUpDigits(c, c, n, p, q);
    ScaleEnd(c.dp, s, p, n, r);
    assert forall k | n <= k < |s| :: c.dp[k] == c.dp[n..][k - n] == s[n..][k - n] == s[k];
    MulLe(1, q, p);
    if r != 0 {
      c.dp := c.dp[n := r];
      c.used := n + 1;
    }
  }

  lemma DivComposes(x: nat, w: nat, p: nat)
    requires w > 0 && p > 0
    ensures w * p > 0 && (x / w) / p == x / (w * p)
  {
    DivMod(x, w);
    DivMod(x / w, p);
    DivParts(x, w, p, x / w, x % w, (x / w) / p, (x / w) % p);
  }

  lemma DivParts(x: nat, w: nat, p: nat, q: nat, r: nat, q': nat, r': nat)
    requires w > 0 && p > 0 && x == w * q + r && r < w && q == p * q' + r' && r' < p
    ensures w * p > 0 && x / (w * p) == q'
  {
    Distribute(p * q', r', w);
    MulAssoc(w, p, q');
    MulLe(r', p - 1, w);
    Distribute(p, 1, w);
    MulNat(r', w);
    MulLt(0, w, p);
    DivModUnique(x, w * p, q', w * r' + r);
  }

  /** c = a / 2^b, the magnitude shifted right and the sign kept. */
  method Div2d(a: MpInt, b: nat, c: MpInt)
    requires a.Valid() && c.Valid()
    modifies c
    ensures c.Valid() && Pow(2, b) > 0 && c.Mag() == old(a.Mag()) / Pow(2, b)
    ensures c.sign == if c.used == 0 then ZPos else old(a.sign)
  {
    hide Val, Weight, Pow;
    ghost var m := a.Mag();
    BitsAndDigits(b);
    Copy(a, c);
    if b == 0 {
      assert Pow(2, b) == 1 by { PowZero(2); }
      return;
    }
    if b >= DIGIT_BIT {
      Rshd(c, b / DIGIT_BIT);
    } else {
      SmallWeights();
    }
    ghost var w := Weight(b / DIGIT_BIT);
    var d := b % DIGIT_BIT;
    BitSplit(d);
    DivComposes(m, w, Pow(2, d));
    if d != 0 {
      ghost var s := c.dp;
      ShiftDownDigits(c, c, c.used, Pow(2, d), Pow(2, DIGIT_BIT - d));
      assert forall k | c.used <= k < |s| :: c.dp[k] == c.dp[c.used..][k - c.used] == s[c.used..][k - c.used] == s[k];
    } else {
      assert Pow(2, d) == 1 by { PowZero(2); }
    }
    c.Clamp();
  }

  // ----- one digit

  /** The column sum of one digit of mp_mul_d fits the 64-bit word and its carry fits a digit. */
  lemma ProductDigit(x: nat, b: nat, u: nat)
    requires x < BASE && b < BASE && u < BASE
    ensures 0 <= u + x * b < COLUMN_WORD && (u + x * b) / BASE < BASE
    ensures (u + x * b) % BASE + (u + x * b) / BASE * BASE == b * x + u
  {
    MulLe(x, BASE - 1, b);
    MulNat(x, b);
  }

  /** c = a * b for one digit b. */
  method MulD(a: MpInt, b: nat, c: MpInt)
    requires a.Wf() && c.Wf() && b < BASE
    modifies c
    ensures c.Valid() && c.Mag() == old(a.Mag()) * b && c.used <= old(a.used) + 1 && |c.dp| >= old(|c.dp|)
    ensures c.sign == if c.used == 0 then ZPos else old(a.sign)
  {
    if |c.dp| < a.used + 1 {
      c.Grow(a.used + 1);
    }
    MulDInPlace(a, b, c);
  }

  method MulDInPlace(a: MpInt, b: nat, c: MpInt)
    requires a.Wf() && c.Wf() && b < BASE && a.used < |c.dp|
    modifies c
    ensures c.Valid() && c.Mag() == old(a.Mag()) * b && c.used <= old(a.used) + 1 && |c.dp| >= old(|c.dp|)
    ensures c.sign == if c.used == 0 then ZPos else old(a.sign)
  {
    hide Val, Weight;
    ghost var s := a.dp;
    var n, oldUsed := a.used, c.used;
    c.sign := a.sign;
    var u := MulDigits(a, b, c, n);
    ScaleEnd(c.dp, s, b, n, u);
    c.dp := c.dp[n := u];
    c.used := n + 1;
    c.ClearAbove(oldUsed);
    c.Clamp();
  }

  method MulDigits(a: MpInt, b: nat, c: MpInt, n: nat) returns (u: nat)
    requires n <= |a.dp| && n <= |c.dp| && Digits(a.dp) && Digits(c.dp) && b < BASE
    modifies c`dp
    ensures |c.dp| == old(|c.dp|) && Digits(c.dp) && u < BASE
    ensures c.dp[n..] == old(c.dp[n..])
    ensures ScaledSoFar(c.dp, old(a.dp), b, n, u)
  {
    hide Val, Weight;
    ghost var s, c0 := a.dp, c.dp;
    u := 0;
    ScaleStart(c0, s, b);
    var ix := 0;
    while ix < n
      invariant 0 <= ix <= n && u < BASE && |c.dp| == |c0| && Digits(c.dp)
      invariant a != c ==> a.dp == s
      invariant c.dp[ix..] == c0[ix..]
      invariant ScaledSoFar(c.dp, s, b, ix, u)
    {
      assert a.dp[ix] == s[ix] by { assert c.dp[ix] == c.dp[ix..][0] == c0[ix]; }
      ProductDigit(a.dp[ix], b, u);
      var r := u + a.dp[ix] * b;
      ghost var was, u0 := c.dp, u;
      c.dp := c.dp[ix := r % BASE];
      u := r / BASE;
      ScaleStep(was, c.dp, s, b, ix, u0, u);
      ix := ix + 1;
      assert was[ix..] == was[ix - 1..][1..];
    }
  }

  // ----- bit counts and single bits

  /** n is the number of bits of x. */
  ghost predicate BitLength(x: nat, n: nat) {
    if x == 0 then n == 0 else n > 0 && Pow(2, n - 1) <= x < Pow(2, n)
  }

  /** The number of bits of |a|. */
  method CountBits(a: MpInt) returns (r: nat)
    requires a.Valid()
    ensures BitLength(a.Mag(), r)
    ensures a.used > 0 ==> DIGIT_BIT * (a.used - 1) < r <= DIGIT_BIT * a.used
  {
    hide Val, Weight, Pow;
    if a.used == 0 {
      ValZero(a.dp);
      return 0;
    }
    r := (a.used - 1) * DIGIT_BIT;
    var q := a.dp[a.used - 1];
    ghost var top, n := q, 0;
    assert Pow(2, 0) == 1 by { PowZero(2); }
    while q > 0
      invariant r == (a.used - 1) * DIGIT_BIT + n
      invariant q * Pow(2, n) <= top < (q + 1) * Pow(2, n)
      invariant q == 0 ==> n > 0 && Pow(2, n - 1) <= top
      decreases q
    {
      HalveTop(top, q, n);
      r := r + 1;
      q := q / 2;
      n := n + 1;
    }
    TopBits(a.dp, a.used, n);
  }

  lemma HalveTop(top: nat, q: nat, n: nat)
    requires q > 0 && q * Pow(2, n) <= top < (q + 1) * Pow(2, n)
    ensures (q / 2) * Pow(2, n + 1) <= top < (q / 2 + 1) * Pow(2, n + 1)
    ensures Pow(2, n) <= top
  {
    var p := Pow(2, n);
    PowPos(2, n);
    MulLe(1, q, p);
    MulLe(q / 2 * 2, q, p);
    MulLe(q + 1, (q / 2 + 1) * 2, p);
    MulAssoc(q / 2, 2, p);
    MulAssoc(q / 2 + 1, 2, p);
  }

  lemma TopBits(s: seq<nat>, used: nat, n: nat)
    requires 0 < used <= |s| && Digits(s) && n > 0 && Pow(2, n - 1) <= s[used - 1] < Pow(2, n)
    ensures BitLength(Val(s, used), (used - 1) * DIGIT_BIT + n)
    ensures n <= DIGIT_BIT
  {
    var k, w := (used - 1) * DIGIT_BIT, Weight(used - 1);
    WeightIsPow(used - 1);
    PowAdd(2, k, n - 1);
    PowAdd(2, k, n);
    PowPos(2, n - 1);
    ValBound(s, used - 1);
    MulLe(Pow(2, n - 1), s[used - 1], w);
    MulLe(s[used - 1] + 1, Pow(2, n), w);
    Distribute(s[used - 1], 1, w);
    PowPos(2, k + n - 1);
    if n > DIGIT_BIT {
      PowMono(2, DIGIT_BIT, n - 1);
      PowDigitBits();
    }
  }

  /** a = 2^b. */
  method TwoExpt(a: MpInt, b: nat)
    requires a.Valid()
    modifies a
    ensures a.Valid() && a.Int() == Pow(2, b) && a.used == b / DIGIT_BIT + 1
  {
    hide Val, Weight, Pow;
    a.Zero();
    a.Grow(b / DIGIT_BIT + 1);
    BitSplit(b % DIGIT_BIT);
    a.used := b / DIGIT_BIT + 1;
    a.dp := a.dp[b / DIGIT_BIT := Pow(2, b % DIGIT_BIT)];
    SingleBit(a.dp, b);
  }

  lemma SingleBit(s: seq<nat>, b: nat)
    requires b / DIGIT_BIT < |s| && s[b / DIGIT_BIT] == Pow(2, b % DIGIT_BIT)
    requires forall k | 0 <= k < b / DIGIT_BIT :: s[k] == 0
    ensures Val(s, b / DIGIT_BIT + 1) == Pow(2, b) && Pow(2, b % DIGIT_BIT) < BASE
  {
    ValZeros(s, 0, b / DIGIT_BIT);
    BitsAndDigits(b);
    PowDigitBits();
    PowStrict(2, b % DIGIT_BIT, DIGIT_BIT);
  }
}
