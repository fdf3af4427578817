/** Long division by quotient-digit estimation, and the remainder with the sign of the modulus. */
module MpDiv {
  import opened Numbers
  import opened MpCore
  import opened MpCompare
  import opened MpAddSub
  import opened MpShift
  import opened MpScale

  // ----- what division means

  function Abs(x: int): nat {
    if x < 0 then -x else x
  }

  /** Division rounding toward zero. */
  function TruncDiv(a: int, b: int): int
    requires b != 0
  {
    var q := Abs(a) / Abs(b);
    if (a < 0) == (b < 0) then q else -q
  }

  /** The remainder that goes with it takes the sign of the dividend. */
  function TruncRem(a: int, b: int): int
    requires b != 0
  {
    var r := Abs(a) % Abs(b);
    if a < 0 then -r else r
  }

  // ----- estimating one quotient digit
  //
  // top3 holds the three leading digits of the dividend at weight scale, top2 the two
  // leading digits of the divisor; rest and rest' are what lies below.

  /** The situation before one quotient digit q is found: num < BASE * den. */
  ghost predicate Estimating(num: nat, den: nat, scale: nat, x3: nat, y2: nat, q: nat) {
    && den > 0 && scale > 0 && q < BASE
    && q * den <= num < (q + 1) * den
    && x3 * scale <= BASE * num < (x3 + 1) * scale
    && y2 * scale <= BASE * den < (y2 + 1) * scale
  }

  /** A digit rejected by the three-by-two comparison is above the true one. */
  lemma RejectedIsAbove(num: nat, den: nat, scale: nat, x3: nat, y2: nat, q: nat, e: nat)
    requires Estimating(num, den, scale, x3, y2, q) && e * y2 > x3
    ensures e > q
  {
    if q >= e {
      MulLe(e, q, den);
      MulAssoc(BASE, e, den);
      MulLe(y2 * scale, BASE * den, e);
      MulAssoc(e, y2, scale);
      MulLtCancel(e * y2, x3 + 1, scale);
    }
  }

  /** A digit whose product with an upper bound of the divisor's head fits is at most one too large. */
  lemma FittingIsClose(num: nat, den: nat, scale: nat, x3: nat, y2: nat, q: nat, e: nat)
    requires Estimating(num, den, scale, x3, y2, q) && e > 0 && (e - 1) * (y2 + 1) <= x3
    ensures e <= q + 1
  {
    MulLe(BASE * den, (y2 + 1) * scale, e - 1);
    MulAssoc(e - 1, y2 + 1, scale);
    MulLe((e - 1) * (y2 + 1), x3, scale);
    MulAssoc(BASE, e - 1, den);
    MulLtCancel(e - 1, q + 1, den);
  }

  /** The two-by-one quotient is not below the true digit. */
  lemma FirstEstimateIsAbove(num: nat, den: nat, scale: nat, xi: nat, x1: nat, x2: nat, yt: nat, y1: nat, q: nat)
    requires x2 < BASE && yt > 0
    requires Estimating(num, den, scale, (xi * BASE + x1) * BASE + x2, yt * BASE + y1, q)
    ensures Candidate(q, q, yt, xi * BASE + x1)
  {
    var x3, y2 := (xi * BASE + x1) * BASE + x2, yt * BASE + y1;
    MulAssoc(BASE, q, den);
    MulLe(y2 * scale, BASE * den, q);
    MulAssoc(q, y2, scale);
    MulLtCancel(q * y2, x3 + 1, scale);
    MulLe(yt * BASE, y2, q);
    MulAssoc(q, yt, BASE);
  }

  /** The comparison lets a digit pass either because its product fits, or, the right-hand side being
      unclamped, because its product has fewer than three digits. Both ways it is at most one too large. */
  lemma AcceptedIsClose(num: nat, den: nat, scale: nat, xi: nat, x1: nat, x2: nat, yt: nat, y1: nat, q: nat, e: nat)
    requires y1 < BASE && BASE / 4 <= yt && e > 0 && e < BASE
    requires Estimating(num, den, scale, (xi * BASE + x1) * BASE + x2, yt * BASE + y1, q)
    requires e * yt <= xi * BASE + x1
    requires e * (yt * BASE + y1) <= (xi * BASE + x1) * BASE + x2 || e * (yt * BASE + y1) < BASE * BASE
    ensures e <= q + 1
  {
    if e * (yt * BASE + y1) <= (xi * BASE + x1) * BASE + x2 {
      FittingProduct(yt * BASE + y1, e);
    } else {
      ShortProduct(yt, y1, e);
      MulLe((e - 1) * (yt + 1), xi * BASE + x1, BASE);
    }
    FittingIsClose(num, den, scale, (xi * BASE + x1) * BASE + x2, yt * BASE + y1, q, e);
  }

  lemma FittingProduct(y2: nat, e: nat)
    requires 0 < e <= y2
    ensures (e - 1) * (y2 + 1) <= e * y2
  {
    Distribute(e, 1, y2 + 1);
    Distribute(y2, 1, e);
  }

  lemma ShortProduct(yt: nat, y1: nat, e: nat)
    requires y1 < BASE && BASE / 4 <= yt && e > 0 && e * (yt * BASE + y1) < BASE * BASE
    ensures (e - 1) * (yt * BASE + y1 + 1) <= (e - 1) * (yt + 1) * BASE && (e - 1) * (yt + 1) <= e * yt
  {
    MulLe(yt * BASE, yt * BASE + y1, e);
    MulAssoc(e, yt, BASE);
    MulLe(BASE / 4, yt, e);
    FittingProduct(yt, e);
    MulLe(yt * BASE + y1 + 1, (yt + 1) * BASE, e - 1);
    MulAssoc(e - 1, yt + 1, BASE);
  }

  // ----- the leading digits of a digit sequence

  /** The digit at position i, zero below position 0. */
  function DigitAt(s: seq<nat>, i: int): nat
    requires i < |s|
  {
    if i < 0 then 0 else s[i]
  }

  lemma LeadingDigit(d: nat, h: nat, w: nat, v: nat)
    requires h * w <= BASE * v < (h + 1) * w
    ensures (d * BASE + h) * w <= BASE * (d * w + v) < (d * BASE + h + 1) * w
  {
    MulAssoc(d, BASE, w);
    MulAssoc(BASE, d, w);
    Distribute(d * BASE, h, w);
    Distribute(d * BASE, h + 1, w);
    Distribute(d * w, v, BASE);
  }

  /** Scaled by one digit, the digits up to i are the leading two and a rest below weight i. */
  lemma LeadingTwo(s: seq<nat>, i: nat)
    requires i < |s| && Digits(s)
    ensures var h := s[i] * BASE + DigitAt(s, i - 1);
            h * Weight(i) <= BASE * Val(s, i + 1) < (h + 1) * Weight(i)
  {
    hide Val, Weight;
    if i > 0 {
      ValBound(s, i - 1);
      NextDigit(s[i - 1], Weight(i - 1), Val(s, i - 1));
      WeightStep(i - 1);
      ValStep(s, i - 1);
    } else {
      SmallWeights();
      ValZero(s);
    }
    ValStep(s, i);
    LeadingDigit(s[i], DigitAt(s, i - 1), Weight(i), Val(s, i));
  }

  lemma NextDigit(d: nat, w: nat, v: nat)
    requires v < w
    ensures d * (BASE * w) <= BASE * (v + d * w) < (d + 1) * (BASE * w)
  {
    MulAssoc(d, BASE, w);
    MulAssoc(BASE, d, w);
    Distribute(d, 1, BASE * w);
  }

  lemma LeadingThree(s: seq<nat>, i: nat)
    requires 0 < i < |s| && Digits(s)
    ensures var h := (s[i] * BASE + s[i - 1]) * BASE + DigitAt(s, i - 2);
            h * Weight(i - 1) <= BASE * Val(s, i + 1) < (h + 1) * Weight(i - 1)
  {
    hide Val, Weight;
    LeadingTwo(s, i - 1);
    WeightStep(i - 1);
    ValStep(s, i);
    MulAssoc(s[i], BASE, Weight(i - 1));
    LeadingDigit(s[i] * BASE, s[i - 1] * BASE + DigitAt(s, i - 2), Weight(i - 1), Val(s, i));
  }

  /** The digit sequences of dividend and divisor are in the situation the estimate is for. */
  lemma DigitsEstimating(x: seq<nat>, y: seq<nat>, i: nat, t: nat, k: nat, num: nat, den: nat, q: nat)
    requires i == t + k + 1 && i < |x| && t < |y| && Digits(x) && Digits(y) && y[t] > 0
    requires num == Val(x, i + 1) && den == Val(y, t + 1) * Weight(k) && num < Val(y, t + 1) * Weight(k + 1)
    requires 0 < den && q * den <= num < (q + 1) * den
    ensures Estimating(num, den, Weight(i - 1), (x[i] * BASE + x[i - 1]) * BASE + DigitAt(x, i - 2),
                       y[t] * BASE + DigitAt(y, t - 1), q)
  {
    hide Val, Weight;
    LeadingThree(x, i);
    LeadingTwo(y, t);
    WeightAdd(t, k);
    WeightStep(k);
    ScaleDivisor(Val(y, t + 1), y[t] * BASE + DigitAt(y, t - 1), Weight(t), Weight(k));
    MulAssoc(Val(y, t + 1), BASE, Weight(k));
    MulLtCancel(q, BASE, den);
  }

  lemma ScaleDivisor(v: nat, h: nat, w: nat, s: nat)
    requires h * w <= BASE * v < (h + 1) * w && s > 0
    ensures h * (w * s) <= BASE * (v * s) < (h + 1) * (w * s)
  {
    MulLe(h * w, BASE * v, s);
    MulLt(BASE * v, (h + 1) * w, s);
    MulAssoc(h, w, s);
    MulAssoc(h + 1, w, s);
    MulAssoc(BASE, v, s);
  }

  // ----- one step of the division

  /** What the do-while test tells: a product of fewer than three digits passes unchecked. */
  ghost predicate Compared(xi: nat, x1: nat, x2: nat, yt: nat, y1: nat, e: nat, exceeds: bool) {
    var p, x3 := e * (yt * BASE + y1), (xi * BASE + x1) * BASE + x2;
    if exceeds then p > x3 else p <= x3 || p < BASE * BASE
  }

  /** e is not below the true digit q, and its product with the top divisor digit fits. */
  ghost predicate Candidate(q: nat, e: int, yt: nat, head: nat) {
    q <= e < BASE && e * yt <= head
  }

  /** The do-while test: e times the two leading divisor digits against the three leading dividend
      digits, which stay unclamped. */
  method ProductExceeds(x: MpInt, y: MpInt, t1: MpInt, t2: MpInt, i: nat, t: nat, e: nat) returns (exceeds: bool)
    requires Digits(x.dp) && Digits(y.dp) && t1.Wf() && t2.Wf() && |t1.dp| >= 2 && |t2.dp| >= 3 && t2.used <= 3
    requires t1 != x && t1 != y && t2 != x && t2 != y && t1 != t2
    requires 0 < i < |x.dp| && t < |y.dp| && e < BASE
    modifies t1, t2
    ensures t1.Valid() && t2.Wf() && |t1.dp| >= 2 && |t2.dp| >= 3 && t2.used <= 3
    ensures Compared(x.dp[i], x.dp[i - 1], DigitAt(x.dp, i - 2), y.dp[t], DigitAt(y.dp, t - 1), e, exceeds)
  {
    hide Val, Weight;
    LoadTwo(t1, DigitAt(y.dp, t - 1), y.dp[t]);
    ghost var y2 := t1.Mag();
    MulD(t1, e, t1);
    assert t1.Mag() == e * y2;
    LoadThree(t2, DigitAt(x.dp, i - 2), x.dp[i - 1], x.dp[i]);
    if t1.used < 3 {
      ShortIsSmall(t1);
    }
    var r := CmpMag(t1, t2);
    exceeds := r == Gt;
  }

  lemma ShortIsSmall(a: MpInt)
    requires a.Wf() && a.used <= 2
    ensures a.Mag() < BASE * BASE
  {
    hide Val, Weight;
    ValBound(a.dp, a.used);
    WeightMono(a.used, 2);
    SmallWeights();
  }

  method LoadTwo(t1: MpInt, d0: nat, d1: nat)
    requires |t1.dp| >= 2 && d0 < BASE && d1 < BASE
    modifies t1
    ensures t1.Wf() && t1.used == 2 && |t1.dp| == old(|t1.dp|) && t1.Mag() == d1 * BASE + d0
  {
    hide Val, Weight;
    t1.Zero();
    t1.dp := t1.dp[0 := d0];
    t1.dp := t1.dp[1 := d1];
    t1.used := 2;
    ValTwo(t1.dp);
  }

  method LoadThree(t2: MpInt, d0: nat, d1: nat, d2: nat)
    requires t2.Wf() && |t2.dp| >= 3 && t2.used <= 3 && d0 < BASE && d1 < BASE && d2 < BASE
    modifies t2
    ensures t2.Wf() && t2.used == 3 && |t2.dp| == old(|t2.dp|) && t2.Mag() == (d2 * BASE + d1) * BASE + d0
  {
    hide Val, Weight;
    t2.dp := t2.dp[0 := d0];
    t2.dp := t2.dp[1 := d1];
    t2.dp := t2.dp[2 := d2];
    t2.used := 3;
    ValThree(t2.dp);
  }

  lemma ValTwo(s: seq<nat>)
    requires |s| >= 2
    ensures Val(s, 2) == s[1] * BASE + s[0]
  {
    hide Val, Weight;
    SmallWeights();
    ValZero(s);
    ValStep(s, 0);
    ValStep(s, 1);
  }

  lemma ValThree(s: seq<nat>)
    requires |s| >= 3
    ensures Val(s, 3) == (s[2] * BASE + s[1]) * BASE + s[0]
  {
    hide Val, Weight;
    ValTwo(s);
    SmallWeights();
    ValStep(s, 2);
  }

  /** Steps 3.1 and 3.2: a quotient digit never below the true one q and at most one above it. */
  method EstimateDigit(x: MpInt, y: MpInt, t1: MpInt, t2: MpInt, i: nat, t: nat, ghost num: nat, ghost den: nat, ghost scale: nat, ghost q: nat)
    returns (e: nat)
    requires Digits(x.dp) && Digits(y.dp) && t1.Wf() && t2.Wf() && |t1.dp| >= 2 && |t2.dp| >= 3 && t2.used <= 3
    requires t1 != x && t1 != y && t2 != x && t2 != y && t1 != t2
    requires 0 < i < |x.dp| && t < |y.dp| && y.dp[t] >= BASE / 4
    requires Estimating(num, den, scale, (x.dp[i] * BASE + x.dp[i - 1]) * BASE + DigitAt(x.dp, i - 2),
                        y.dp[t] * BASE + DigitAt(y.dp, t - 1), q)
    modifies t1, t2
    ensures t1.Valid() && t2.Wf() && |t1.dp| >= 2 && |t2.dp| >= 3 && t2.used <= 3
    ensures e < BASE && (e == q || e == q + 1)
  {
    hide Val, Weight, Estimating, Compared, Candidate;
    ghost var x2, y1 := DigitAt(x.dp, i - 2), DigitAt(y.dp, t - 1);
    ghost var xi, x1, yt := x.dp[i], x.dp[i - 1], y.dp[t];
    ghost var head := xi * BASE + x1;
    FirstEstimateIsAbove(num, den, scale, xi, x1, x2, yt, y1, q);
    e := FirstEstimate(x.dp[i], x.dp[i - 1], y.dp[t], q);
    CandidateBounds(q, e, yt, head);
    ghost var candidate := e;
    e := (e + 1) % BASE;
    var exceeds := true;
    while exceeds
      invariant t1.Wf() && t2.Wf() && (!exceeds ==> t1.Valid()) && |t1.dp| >= 2 && |t2.dp| >= 3 && t2.used <= 3
      invariant q <= candidate < BASE && Candidate(q, candidate, yt, head)
      invariant if exceeds then e == (candidate + 1) % BASE else e == candidate <= q + 1
      decreases candidate, exceeds
    {
      e := (e - 1) % BASE;
      exceeds := ProductExceeds(x, y, t1, t2, i, t, e);
      AfterComparison(num, den, scale, xi, x1, x2, yt, y1, q, e, exceeds);
      if exceeds {
        candidate := candidate - 1;
      }
    }
  }

  lemma CandidateBounds(q: nat, e: int, yt: nat, head: nat)
    requires Candidate(q, e, yt, head)
    ensures q <= e < BASE
  {}

  lemma AfterComparison(num: nat, den: nat, scale: nat, xi: nat, x1: nat, x2: nat, yt: nat, y1: nat, q: nat, e: nat, exceeds: bool)
    requires y1 < BASE && BASE / 4 <= yt
    requires Estimating(num, den, scale, (xi * BASE + x1) * BASE + x2, yt * BASE + y1, q)
    requires Candidate(q, e, yt, xi * BASE + x1) && Compared(xi, x1, x2, yt, y1, e, exceeds)
    ensures if exceeds then q <= e - 1 && Candidate(q, e - 1, yt, xi * BASE + x1) else e <= q + 1
  {
    hide Estimating;
    if exceeds {
      RejectedIsAbove(num, den, scale, (xi * BASE + x1) * BASE + x2, yt * BASE + y1, q, e);
      MulLe(e - 1, e, yt);
    } else if e > 0 {
      AcceptedIsClose(num, den, scale, xi, x1, x2, yt, y1, q, e);
    }
  }

  method FirstEstimate(xi: nat, x1: nat, yt: nat, ghost q: nat) returns (e: nat)
    requires xi < BASE && x1 < BASE && BASE / 4 <= yt < BASE
    requires Candidate(q, q, yt, xi * BASE + x1)
    ensures Candidate(q, e, yt, xi * BASE + x1)
  {
    if xi == yt {
      MulLe(q, BASE - 1, yt);
      Distribute(BASE, 1, yt);
      return BASE - 1;
    }
    var tmp := xi * BASE + x1;
    DivMod(tmp, yt);
    if tmp / yt < q {
      MulLe(tmp / yt + 1, q, yt);
      Distribute(tmp / yt, 1, yt);
    }
    tmp := tmp / yt;
    if tmp > BASE - 1 {
      tmp := BASE - 1;
    }
    MulLe(tmp, (xi * BASE + x1) / yt, yt);
    e := tmp;
  }

  // ----- the division loop

  /** The divisor's top digit sits at position t and uses at least 27 of its 28 bits. */
  ghost predicate Normalized(y: MpInt, t: nat)
    requires y.Wf()
    reads y
  {
    BASE / 4 * Weight(t) <= y.Mag() < Weight(t + 1)
  }

  lemma UsedBound(a: MpInt, n: nat)
    requires a.Valid() && a.Mag() < Weight(n)
    ensures a.used <= n
  {
    hide Val, Weight;
    if a.used > n {
      ValLower(a.dp, a.used);
      WeightMono(n, a.used - 1);
    }
  }

  lemma NormalizedTop(y: MpInt, t: nat)
    requires y.Valid() && Normalized(y, t)
    ensures y.used == t + 1 && y.dp[t] >= BASE / 4 && y.Mag() >= Weight(t)
  {
    hide Val, Weight;
    UsedBound(y, t + 1);
    MulLe(1, BASE / 4, Weight(t));
    if y.used <= t {
      ValBound(y.dp, y.used);
      WeightMono(y.used, t);
    }
    ValStep(y.dp, t);
    ValBound(y.dp, t);
    Distribute(y.dp[t], 1, Weight(t));
    MulLtCancel(BASE / 4, y.dp[t] + 1, Weight(t));
  }

  /** Steps 3.1 to 3.3 for one position: one quotient digit q, with at most one add-back. */
  method DivStep(x: MpInt, y: MpInt, quo: MpInt, t1: MpInt, t2: MpInt, i: nat, t: nat, k: nat, ghost num: nat, ghost den: nat, ghost q: nat)
    requires x.Valid() && y.Valid() && t1.Wf() && t2.Wf() && |t1.dp| >= 2 && |t2.dp| >= 3 && t2.used <= 3
    requires x !in {y, quo, t1, t2} && y !in {quo, t1, t2} && quo !in {t1, t2} && t1 != t2
    requires x.sign == y.sign == ZPos && Normalized(y, t)
    requires i == t + k + 1 && i < |x.dp| && i <= x.used <= i + 1
    requires Digits(quo.dp) && k < |quo.dp|
    requires num == x.Mag() && den == y.Mag() * Weight(k) > 0 && num < y.Mag() * Weight(k + 1)
    requires q * den <= num < (q + 1) * den
    modifies x, quo`dp, t1, t2
    ensures x.Valid() && t1.Wf() && t2.Wf() && |t1.dp| >= 2 && |t2.dp| >= 3 && t2.used <= 3
    ensures x.sign == ZPos && |x.dp| >= old(|x.dp|) && Digits(quo.dp)
    ensures x.Mag() + q * den == num && quo.dp == old(quo.dp)[k := q]
  {
    hide Val, Weight, Estimating;
    NormalizedTop(y, t);
    ValZeros(x.dp, x.used, i + 1);
    DigitsEstimating(x.dp, y.dp, i, t, k, num, den, q);
    var e := EstimateDigit(x, y, t1, t2, i, t, num, den, Weight(i - 1), q);
    quo.dp := quo.dp[k := e];
    SubtractShifted(x, y, e, t1, k, den);
    OneTooMany(num, den, q, e);
    ZeroIsUnused(x);
    if x.sign == Neg {
      AddBack(x, y, t1, k, den);
      ZeroIsUnused(x);
      quo.dp := quo.dp[k := (e - 1) % BASE];
    }
  }

  /** Subtracting e divisors leaves the true remainder, or that less one divisor. */
  lemma OneTooMany(num: nat, den: nat, q: nat, e: nat)
    requires q * den <= num < (q + 1) * den && (e == q || e == q + 1)
    ensures if e == q then num - e * den >= 0 else num - e * den < 0 && num - e * den + den == num - q * den
  {
    Distribute(q, 1, den);
  }

  /** Step 3.3: x = x - e * y * b^k. When e is zero the shifted product is an unclamped zero. */
  method SubtractShifted(x: MpInt, y: MpInt, e: nat, t1: MpInt, k: nat, ghost den: nat)
    requires x.Valid() && y.Valid() && t1.Valid() && x != y && x != t1 && y != t1 && |t1.dp| >= 2
    requires y.sign == ZPos && e < BASE && k <= x.used && den == y.Mag() * Weight(k)
    modifies x, t1
    ensures x.Valid() && t1.Wf() && |t1.dp| >= 2 && |x.dp| >= old(|x.dp|)
    ensures x.Int() == old(x.Int()) - e * den
  {
    hide Val, Weight;
    MulD(y, e, t1);
    ZeroIsUnused(t1);
    MulAssoc(y.Mag(), e, Weight(k));
    Lshd(t1, k);
    Sub(x, t1, x);
  }

  /** x = x + y * b^k. */
  method AddBack(x: MpInt, y: MpInt, t1: MpInt, k: nat, ghost den: nat)
    requires x.Valid() && y.Valid() && t1.Wf() && x != y && x != t1 && y != t1 && |t1.dp| >= 2
    requires y.sign == ZPos && den == y.Mag() * Weight(k) > 0
    modifies x, t1
    ensures x.Valid() && t1.Wf() && |t1.dp| >= 2 && |x.dp| >= old(|x.dp|)
    ensures x.Int() == old(x.Int()) + den
  {
    hide Val, Weight;
    Copy(y, t1);
    ZeroIsUnused(y);
    Lshd(t1, k);
    Add(x, t1, x);
  }

  /** A dividend so short that position i is skipped is already below the shifted divisor. */
  lemma SkippedDigit(x: MpInt, y: MpInt, i: nat, t: nat, k: nat)
    requires x.Valid() && y.Valid() && Normalized(y, t) && i == t + k + 1 && x.used < i
    ensures x.Mag() < y.Mag() * Weight(k)
  {
    hide Val, Weight;
    NormalizedTop(y, t);
    ValBound(x.dp, x.used);
    WeightMono(x.used, t + k);
    WeightAdd(t, k);
    MulLe(Weight(t), y.Mag(), Weight(k));
  }

  lemma RemainderUsed(x: MpInt, y: MpInt, i: nat, t: nat)
    requires x.Valid() && y.Valid() && Normalized(y, t) && t <= i && x.Mag() < y.Mag() * Weight(i - t)
    ensures x.used <= i + 1
  {
    hide Val, Weight;
    MulLe(y.Mag(), Weight(t + 1), Weight(i - t));
    WeightAdd(t + 1, i - t);
    UsedBound(x, i + 1);
  }

  lemma QuotientGrows(was: seq<nat>, k: nat, d: nat, n: nat, y: nat, rem: nat)
    requires k < n <= |was| && was[k] == 0
    ensures Val(was[k := d], n) * y + rem == Val(was, n) * y + (d * (y * Weight(k)) + rem)
  {
    hide Val, Weight;
    ValSet(was, k, d, n);
    Distribute(Val(was, n), d * Weight(k), y);
    MulAssoc(d, Weight(k), y);
    MulAssoc(d, y, Weight(k));
  }

  lemma TrueDigit(num: nat, y: nat, w: nat) returns (d: nat)
    requires y > 0 && w > 0
    ensures y * w > 0 && d * (y * w) <= num < (d + 1) * (y * w)
  {
    MulLt(0, y, w);
    d := num / (y * w);
    DivMod(num, y * w);
    Distribute(d, 1, y * w);
  }

  /** Step 3: the quotient digits below position n - t, from the top down. */
  method DivDigits(x: MpInt, y: MpInt, q: MpInt, t1: MpInt, t2: MpInt, n: nat, t: nat)
    requires x.Valid() && y.Valid() && t1.Wf() && t2.Wf() && |t1.dp| >= 2 && |t2.dp| >= 3 && t2.used <= 3
    requires x !in {y, q, t1, t2} && y !in {q, t1, t2} && q !in {t1, t2} && t1 != t2
    requires x.sign == y.sign == ZPos && Normalized(y, t) && t <= n < |x.dp|
    requires Digits(q.dp) && n - t < q.used <= |q.dp| && forall j | 0 <= j < n - t :: q.dp[j] == 0
    requires x.Mag() < y.Mag() * Weight(n - t)
    modifies x, q`dp, t1, t2
    ensures x.Valid() && x.sign == ZPos && x.Mag() < y.Mag()
    ensures Digits(q.dp) && |q.dp| == old(|q.dp|) && q.dp[n - t..] == old(q.dp[n - t..])
    ensures Val(q.dp, q.used) * y.Mag() + x.Mag() == Val(old(q.dp), q.used) * y.Mag() + old(x.Mag())
  {
    hide Val, Weight;
    ghost var total, q0 := Val(q.dp, q.used) * y.Mag() + x.Mag(), q.dp;
    var i := n;
    while i > t
      invariant t <= i <= n < |x.dp|
      invariant x.Valid() && t1.Wf() && t2.Wf() && |t1.dp| >= 2 && |t2.dp| >= 3 && t2.used <= 3
      invariant x.sign == ZPos && Digits(q.dp) && |q.dp| == |q0| && q.dp[n - t..] == q0[n - t..]
      invariant forall j | 0 <= j < i - t :: q.dp[j] == 0
      invariant x.Mag() < y.Mag() * Weight(i - t)
      invariant Val(q.dp, q.used) * y.Mag() + x.Mag() == total
    {
      var k := i - t - 1;
      if i > x.used {
        SkippedDigit(x, y, i, t, k);
      } else {
        RemainderUsed(x, y, i, t);
        ghost var was, num, den := q.dp, x.Mag(), y.Mag() * Weight(k);
        ghost var d := TrueDigit(num, y.Mag(), Weight(k));
        DivStep(x, y, q, t1, t2, i, t, k, num, den, d);
        QuotientGrows(was, k, d, q.used, y.Mag(), x.Mag());
        Distribute(d, 1, den);
      }
      i := i - 1;
    }
    SmallWeights();
  }

  /** Step 2: the top quotient digit, by repeated subtraction of the divisor shifted up. */
  method TopDigit(x: MpInt, y: MpInt, q: MpInt, k: nat, ghost w: nat)
    requires x.Valid() && y.Valid() && x !in {y, q} && y != q && x.sign == y.sign == ZPos
    requires w > 0 && w <= y.Mag() && x.Mag() < BASE * w
    requires Digits(q.dp) && k < q.used <= |q.dp| && q.dp[k] == 0
    modifies x, q`dp
    ensures x.Valid() && x.sign == ZPos && |x.dp| >= old(|x.dp|) && x.Mag() < y.Mag()
    ensures Digits(q.dp) && |q.dp| == old(|q.dp|)
    ensures exists d: nat :: q.dp == old(q.dp)[k := d] && d * y.Mag() + x.Mag() == old(x.Mag())
  {
    hide Val, Weight;
    ghost var x0, q0 := x.Mag(), q.dp;
    var r := Cmp(x, y);
    while r != Lt
      invariant x.Valid() && x.sign == ZPos && |x.dp| >= old(|x.dp|) && r == Compare(x.Mag(), y.Mag())
      invariant |q.dp| == |q0| && Digits(q.dp) && q.dp == q0[k := q.dp[k]]
      invariant q.dp[k] * y.Mag() + x.Mag() == x0
      decreases x.Mag()
    {
      CountBelowBase(q.dp[k], y.Mag(), x.Mag(), w);
      q.dp := q.dp[k := q.dp[k] + 1];
      Sub(x, y, x);
      ZeroIsUnused(x);
      r := Cmp(x, y);
    }
  }

  lemma CountBelowBase(d: nat, y: nat, x: nat, w: nat)
    requires 0 < w <= y <= x && d * y + x < BASE * w
    ensures d + 1 < BASE && (d + 1) * y + (x - y) == d * y + x
  {
    Distribute(d, 1, y);
    MulLe(w, y, d + 1);
    MulLtCancel(d + 1, BASE, w);
  }

  /** Step 2 with its shifts: the divisor is moved up under the dividend's top digit and back. */
  method DivTop(x: MpInt, y: MpInt, q: MpInt, n: nat, t: nat)
    requires x.Valid() && y.Valid() && x !in {y, q} && y != q && x.sign == y.sign == ZPos
    requires x.used == n + 1 && t <= n && Normalized(y, t)
    requires n - t < q.used <= |q.dp| && Digits(q.dp) && forall k | 0 <= k < q.used :: q.dp[k] == 0
    modifies x, y, q`dp
    ensures x.Valid() && y.Valid() && x.sign == y.sign == ZPos && |x.dp| >= old(|x.dp|) && y.Mag() == old(y.Mag())
    ensures x.Mag() < y.Mag() * Weight(n - t)
    ensures Digits(q.dp) && |q.dp| == old(|q.dp|)
    ensures forall j | 0 <= j < |q.dp| && j != n - t :: q.dp[j] == old(q.dp[j])
    ensures Val(q.dp, q.used) * y.Mag() + x.Mag() == old(x.Mag())
  {
    hide Val, Weight;
    ghost var x0, y0, q0 := x.Mag(), y.Mag(), q.dp;
    NormalizedTop(y, t);
    ValBound(x.dp, x.used);
    WeightStep(n);
    WeightAdd(t, n - t);
    MulLe(Weight(t), y0, Weight(n - t));
    Lshd(y, n - t);
    TopDigit(x, y, q, n - t, Weight(n));
    ghost var d: nat :| q.dp == q0[n - t := d] && d * y.Mag() + x.Mag() == x0;
    Rshd(y, n - t);
    DivModUnique(y0 * Weight(n - t), Weight(n - t), y0, 0);
    TopQuotient(q0, n - t, d, q.used, y0);
  }

  lemma TopQuotient(q: seq<nat>, k: nat, d: nat, n: nat, y: nat)
    requires k < n <= |q| && forall j | 0 <= j < n :: q[j] == 0
    ensures Val(q[k := d], n) * y == d * (y * Weight(k))
  {
    hide Val, Weight;
    ValZeros(q, 0, n);
    ValZero(q);
    ValSet(q, k, d, n);
    MulAssoc(d, y, Weight(k));
    MulAssoc(d, Weight(k), y);
  }

  /** Long division of nonnegative numbers by a normalised divisor: q.dp becomes the quotient, x the remainder. */
  method DivNormalized(x: MpInt, y: MpInt, q: MpInt, t1: MpInt, t2: MpInt)
    requires x.Valid() && y.Valid() && t1.Valid() && t2.Valid() && |t1.dp| >= 3 && |t2.dp| >= 3 && t2.used <= 3
    requires x !in {y, q, t1, t2} && y !in {q, t1, t2} && q !in {t1, t2} && t1 != t2
    requires x.sign == y.sign == ZPos && 0 < y.used <= x.used && Normalized(y, y.used - 1)
    requires x.used - y.used < q.used <= |q.dp| && forall k | 0 <= k < |q.dp| :: q.dp[k] == 0
    modifies x, y, q`dp, t1, t2
    ensures x.Valid() && x.sign == ZPos && q.Wf()
    ensures old(y.Mag()) > 0 && q.Mag() == old(x.Mag()) / old(y.Mag()) && x.Mag() == old(x.Mag()) % old(y.Mag())
  {
    hide Val, Weight;
    var n, t := x.used - 1, y.used - 1;
    ghost var x0, y0, q0 := x.Mag(), y.Mag(), q.dp;
    DivTop(x, y, q, n, t);
    ghost var q1 := q.dp;
    DivDigits(x, y, q, t1, t2, n, t);
    assert forall k | n - t <= k < |q0| :: q.dp[k] == q.dp[n - t..][k - (n - t)] == q1[n - t..][k - (n - t)] == q1[k];
    DivModUnique(x0, y0, Val(q.dp, q.used), x.Mag());
  }

  // ----- normalisation

  lemma BitLengthShift(v: nat, n: nat, s: nat)
    requires v > 0 && BitLength(v, n)
    ensures v * Pow(2, s) > 0 && BitLength(v * Pow(2, s), n + s)
  {
    PowPos(2, s);
    PowAdd(2, n - 1, s);
    PowAdd(2, n, s);
    MulLe(Pow(2, n - 1), v, Pow(2, s));
    MulLt(v, Pow(2, n), Pow(2, s));
    MulLt(0, v, Pow(2, s));
  }

  /** A bit length of 27 modulo 28 is what the division needs of its divisor: its top digit is at least a quarter
      and below a half of the base. */
  lemma BitsNormalize(y: MpInt, n: nat)
    requires y.Valid() && BitLength(y.Mag(), n) && n % DIGIT_BIT == DIGIT_BIT - 1
    ensures y.used > 0 && Normalized(y, y.used - 1) && BASE / 4 <= y.dp[y.used - 1] < BASE / 2
  {
    hide Val, Weight, Pow;
    var m := n / DIGIT_BIT;
    WeightIsPow(m);
    WeightStep(m);
    PowAdd(2, DIGIT_BIT * m, 26);
    PowAdd(2, DIGIT_BIT * m, 27);
    SmallPowers();
    MulLe(BASE / 4, BASE / 2, Weight(m));
    NormalizedTop(y, m);
    ValStep(y.dp, m);
    MulLtCancel(y.dp[m], BASE / 2, Weight(m));
  }

  lemma SmallPowers()
    ensures Pow(2, 26) == BASE / 4 && Pow(2, 27) == BASE / 2
  {
    PowDigitBits();
    PowAdd(2, 26, 2);
    PowAdd(2, 27, 1);
    assert Pow(2, 1) == 2;
  }

  /** Shifts dividend and divisor until the divisor's bit length is 27 modulo 28. */
  method Normalize(x: MpInt, y: MpInt) returns (norm: nat)
    requires x.Valid() && y.Valid() && x != y && y.used > 0 && x.sign == y.sign == ZPos
    modifies x, y
    ensures x.Valid() && y.Valid() && x.sign == y.sign == ZPos && x.used <= old(x.used) + 1
    ensures y.used > 0 && Normalized(y, y.used - 1)
    ensures Pow(2, norm) > 0 && x.Mag() == old(x.Mag()) * Pow(2, norm) && y.Mag() == old(y.Mag()) * Pow(2, norm)
  {
    hide Val, Weight, Pow, Normalized;
    ZeroIsUnused(y);
    var bits := CountBits(y);
    norm := bits % DIGIT_BIT;
    if norm < DIGIT_BIT - 1 {
      norm := DIGIT_BIT - 1 - norm;
      BitLengthShift(y.Mag(), bits, norm);
      Mul2d(x, norm, x);
      Mul2d(y, norm, y);
      BitsNormalize(y, bits + norm);
      PowPos(2, norm);
    } else {
      BitsNormalize(y, bits);
      norm := 0;
      PowZero(2);
    }
  }

  // ----- division

  /** Removing the common scale from quotient and remainder. */
  lemma Unscale(a: nat, b: nat, s: nat)
    requires b > 0 && s > 0
    ensures b * s > 0 && (a * s) / (b * s) == a / b && ((a * s) % (b * s)) / s == a % b
  {
    DivMod(a, b);
    var q, r := a / b, a % b;
    MulLt(0, b, s);
    MulLt(r, b, s);
    MulNat(r, s);
    Distribute(b * q, r, s);
    MulAssoc(q, b, s);
    DivModUnique(a * s, b * s, q, r * s);
    DivModUnique(r * s, s, r, 0);
  }

  /** c = a / b rounded toward zero and d the remainder, either of them optional; c and d may be a or b. */
  method Div(a: MpInt, b: MpInt, c: MpInt?, d: MpInt?) returns (res: Status)
    requires a.Valid() && b.Valid() && (c != null ==> c.Valid() && c != d) && (d != null ==> d.Valid())
    modifies c, d
    ensures res == if old(b.Int()) == 0 then BadValue else Okay
    ensures res == BadValue ==> (c != null ==> unchanged(c)) && (d != null ==> unchanged(d))
    ensures res == Okay && c != null ==> c.Valid() && c.Int() == TruncDiv(old(a.Int()), old(b.Int()))
    ensures res == Okay && d != null ==> d.Valid() && d.Int() == TruncRem(old(a.Int()), old(b.Int()))
  {
    hide Val, Weight, Pow;
    ZeroIsUnused(a);
    ZeroIsUnused(b);
    if b.used == 0 {
      return BadValue;
    }
    var order := CmpMag(a, b);
    if order == Lt {
      SmallDividend(a.Mag(), b.Mag());
      if d != null {
        Copy(a, d);
      }
      if c != null {
        c.Zero();
      }
    } else {
      LongDiv(a, b, c, d);
    }
    return Okay;
  }

  lemma SmallDividend(a: nat, b: nat)
    requires a < b
    ensures a / b == 0 && a % b == a
  {
    DivModUnique(a, b, 0, a);
  }

  method LongDiv(a: MpInt, b: MpInt, c: MpInt?, d: MpInt?)
    requires a.Valid() && b.Valid() && (c != null ==> c.Valid() && c != d) && (d != null ==> d.Valid())
    requires b.used > 0 && a.Mag() >= b.Mag() > 0
    modifies c, d
    ensures c != null ==> c.Valid() && c.Int() == TruncDiv(old(a.Int()), old(b.Int()))
    ensures d != null ==> d.Valid() && d.Int() == TruncRem(old(a.Int()), old(b.Int()))
  {
    hide Val, Weight, Pow, TruncDiv, TruncRem, ShiftedRemainder;
    TruncParts(a, b);
    ghost var quotient, remainder, r := TruncDiv(a.Int(), b.Int()), TruncRem(a.Int(), b.Int()), TruncRem(a.Mag(), b.Mag());
    var q, x, norm := DivMagnitudes(a, b);
    var neg := if a.sign == b.sign then ZPos else Neg;
    var sign := a.sign;
    x.sign := if x.used == 0 then ZPos else sign;
    if c != null {
      HandOver(q, c, neg, quotient);
    }
    if d != null {
      HandOverRemainder(x, norm, d, sign, r);
    }
  }

  lemma TruncParts(a: MpInt, b: MpInt)
    requires a.Valid() && b.Valid() && a.Mag() > 0 && b.Mag() > 0
    ensures TruncDiv(a.Int(), b.Int()) == var q := TruncDiv(a.Mag(), b.Mag()); if a.sign == b.sign then q else -q
    ensures TruncRem(a.Int(), b.Int()) == var r := TruncRem(a.Mag(), b.Mag()); if a.sign == Neg then -r else r
    ensures TruncRem(a.Mag(), b.Mag()) >= 0
  {}

  method HandOver(q: MpInt, c: MpInt, sign: Sign, ghost value: int)
    requires q.Wf() && q != c && q.Mag() > 0 && value == var m: int := q.Mag(); if sign == Neg then -m else m
    modifies q, c
    ensures c.Valid() && c.Int() == value
  {
    q.Clamp();
    ZeroIsUnused(q);
    Exch(q, c);
    c.sign := sign;
  }

  /** m is the remainder r still shifted up by norm bits. */
  ghost predicate ShiftedRemainder(m: nat, norm: nat, r: int) {
    Pow(2, norm) > 0 && m / Pow(2, norm) == r
  }

  method HandOverRemainder(x: MpInt, norm: nat, d: MpInt, ghost sign: Sign, ghost r: nat)
    requires x.Valid() && x != d && x.sign == (if x.used == 0 then ZPos else sign) && ShiftedRemainder(x.Mag(), norm, r)
    modifies x, d
    ensures d.Valid() && d.Int() == var m: int := r; if sign == Neg then -m else m
  {
    hide Pow;
    ZeroIsUnused(x);
    Div2d(x, norm, x);
    ZeroIsUnused(x);
    Exch(x, d);
  }

  /** The working copies and the division proper; the remainder comes out still shifted by norm bits. */
  method DivMagnitudes(a: MpInt, b: MpInt) returns (q: MpInt, x: MpInt, norm: nat)
    requires a.Valid() && b.Valid() && b.used > 0 && a.Mag() >= b.Mag() > 0
    ensures fresh(q) && fresh(x) && q != x && q.Wf() && x.Valid() && x.sign == ZPos
    ensures q.Mag() == TruncDiv(a.Mag(), b.Mag()) > 0
    ensures ShiftedRemainder(x.Mag(), norm, TruncRem(a.Mag(), b.Mag()))
  {
    hide Val, Weight, Pow, Normalized, ShiftedRemainder, TruncDiv, TruncRem;
    var t1 := new MpInt.Init();
    var t2 := new MpInt.Init();
    var y;
    x := PositiveCopy(a);
    y := PositiveCopy(b);
    q := new MpInt.InitSize(a.used + 2);
    q.used := a.used + 2;
    norm := DivWorking(x, y, q, t1, t2);
  }

  method PositiveCopy(a: MpInt) returns (x: MpInt)
    requires a.Valid()
    ensures fresh(x) && x.Valid() && x.Mag() == a.Mag() && x.used == a.used && x.sign == ZPos
  {
    x := new MpInt.InitCopy(a);
    x.sign := ZPos;
  }

  method DivWorking(x: MpInt, y: MpInt, q: MpInt, t1: MpInt, t2: MpInt) returns (norm: nat)
    requires x.Valid() && y.Valid() && t1.Valid() && t2.Valid() && |t1.dp| >= 3 && |t2.dp| >= 3 && t2.used <= 3
    requires x !in {y, q, t1, t2} && y !in {q, t1, t2} && q !in {t1, t2} && t1 != t2
    requires x.sign == y.sign == ZPos && y.used > 0 && x.Mag() >= y.Mag() > 0
    requires q.used == x.used + 2 <= |q.dp| && forall k | 0 <= k < |q.dp| :: q.dp[k] == 0
    modifies x, y, q`dp, t1, t2
    ensures x.Valid() && x.sign == ZPos && q.Wf()
    ensures q.Mag() == TruncDiv(old(x.Mag()), old(y.Mag())) > 0
    ensures ShiftedRemainder(x.Mag(), norm, TruncRem(old(x.Mag()), old(y.Mag())))
  {
    hide Val, Weight, Pow, Normalized;
    ghost var a0, b0 := x.Mag(), y.Mag();
    norm := Normalize(x, y);
    Unscale(a0, b0, Pow(2, norm));
    MulLe(b0, a0, Pow(2, norm));
    NoLonger(x, y);
    DivNormalized(x, y, q, t1, t2);
    QuotientPositive(a0, b0);
  }

  lemma QuotientPositive(a: nat, b: nat)
    requires a >= b > 0
    ensures a / b > 0
  {
    DivMod(a, b);
  }

  lemma NoLonger(x: MpInt, y: MpInt)
    requires x.Valid() && y.Valid() && x.Mag() >= y.Mag()
    ensures x.used >= y.used
  {
    ClampedCompare(x, y);
  }

  /** Quotient and remainder are determined by the three properties division promises. */
  lemma TruncDivRem(a: int, b: int, q: int, r: int)
    requires b != 0
    ensures q == TruncDiv(a, b) && r == TruncRem(a, b)
       <==> q * b + r == a && Abs(r) < Abs(b) && (r == 0 || (r < 0) == (a < 0))
  {
    DivMod(Abs(a), Abs(b));
    var q0, r0 := TruncDiv(a, b), TruncRem(a, b);
    TruncIsDivision(a, b);
    if q * b + r == a && Abs(r) < Abs(b) && (r == 0 || (r < 0) == (a < 0)) {
      Distribute(q, q0, b);
      NoMultipleBetween(q - q0, b, r0 - r);
    }
  }

  lemma TruncIsDivision(a: int, b: int)
    requires b != 0
    ensures TruncDiv(a, b) * b + TruncRem(a, b) == a
    ensures Abs(TruncRem(a, b)) < Abs(b) && (TruncRem(a, b) == 0 || (TruncRem(a, b) < 0) == (a < 0))
  {
    DivMod(Abs(a), Abs(b));
  }

  lemma NoMultipleBetween(k: int, b: int, x: int)
    requires b != 0 && k * b == x && Abs(x) < Abs(b)
    ensures k == 0
  {
    if k >= 1 {
      MulLe(1, k, Abs(b));
    } else if k <= -1 {
      MulLe(k, -1, Abs(b));
    }
  }

  // ----- the remainder with the sign of the modulus

  /** What the modulus operation returns: the remainder, moved by the modulus when the signs differ. */
  function ModResult(a: int, b: int): int
    requires b != 0
  {
    var r := TruncRem(a, b);
    if (r < 0) == (b < 0) then r else b + r
  }

  /** The promise 0 <= c < b with c congruent to a is kept exactly for positive moduli. */
  lemma ModForPositive(a: int, b: int)
    requires b != 0
    ensures 0 <= ModResult(a, b) < b <==> b > 0
    ensures b > 0 ==> ModResult(a, b) == a % b
  {
    TruncIsDivision(a, b);
    var q, r := TruncDiv(a, b), TruncRem(a, b);
    if b > 0 {
      if r < 0 {
        Distribute(q, 1, b);
        DivModUnique(a, b, q - 1, b + r);
      } else {
        DivModUnique(a, b, q, r);
      }
    }
  }

  /** c = a mod b. */
  method Mod(a: MpInt, b: MpInt, c: MpInt) returns (res: Status)
    requires a.Valid() && b.Valid() && c.Valid()
    modifies c
    ensures res == if old(b.Int()) == 0 then BadValue else Okay
    ensures c.Valid() && (res == BadValue ==> unchanged(c))
    ensures res == Okay ==> c.Int() == ModResult(old(a.Int()), old(b.Int()))
  {
    hide Val, TruncRem;
    var t := new MpInt.Init();
    res := Div(a, b, null, t);
    if res != Okay {
      return;
    }
    ZeroIsUnused(t);
    ZeroIsUnused(b);
    if t.sign != b.sign {
      Add(b, t, c);
    } else {
      Exch(t, c);
    }
  }
}
