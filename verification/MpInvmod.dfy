/** Modular inverses by the binary extended Euclidean algorithm. */
module MpInvmod {
  import opened Numbers
  import opened Congruence
  import opened MpCore
  import opened MpCompare
  import opened MpAddSub
  import opened MpScale
  import opened MpDiv
  import opened MpMontgomery

  // ----- common divisors

  /** Every common divisor of u and v is one of x and y. */
  ghost predicate CommonFrom(u: int, v: int, x: int, y: int) {
    forall d | d > 0 && u % d == 0 && v % d == 0 :: x % d == 0 && y % d == 0
  }

  lemma SumDivides(p: int, q: int, k: int, d: int)
    requires d > 0 && p % d == 0 && q % d == 0
    ensures (p + k * q) % d == 0
  {
    DivMod(p, d);
    DivMod(q, d);
    MulAssoc(k, q / d, d);
    Distribute(p / d, k * (q / d), d);
    DivModUnique(p + k * q, d, p / d + k * (q / d), 0);
  }

  lemma CommonHalf(u: int, v: int, x: int, y: int)
    requires u % 2 == 0 && CommonFrom(u, v, x, y)
    ensures CommonFrom(u / 2, v, x, y) && CommonFrom(v, u, x, y)
  {
    forall d | d > 0 && (u / 2) % d == 0 && v % d == 0
      ensures x % d == 0 && y % d == 0
    {
      SumDivides(u / 2, u / 2, 1, d);
      assert u / 2 + 1 * (u / 2) == u;
    }
  }

  lemma CommonSwap(u: int, v: int, x: int, y: int)
    requires CommonFrom(u, v, x, y)
    ensures CommonFrom(v, u, x, y)
  {}

  lemma CommonDifference(u: int, v: int, x: int, y: int)
    requires CommonFrom(u, v, x, y)
    ensures CommonFrom(u - v, v, x, y)
  {
    forall d | d > 0 && (u - v) % d == 0 && v % d == 0
      ensures x % d == 0 && y % d == 0
    {
      SumDivides(u - v, v, 1, d);
    }
  }

  /** t is an inverse of y modulo x. */
  ghost predicate Inverse(t: int, y: int, x: int) {
    x > 0 && Congruent(t * y, 1, x)
  }

  /** Numbers with a common divisor above one have no inverse. */
  lemma NoInverse(d: int, x: int, y: int, t: int)
    requires d > 1 && x > 0 && x % d == 0 && y % d == 0
    ensures !Inverse(t, y, x)
  {
    if Inverse(t, y, x) {
      var k := DifferIfCongruent(t * y, 1, x);
      assert t * y + -k * x == 1;
      DivModUnique(0, d, 0, 0);
      DivModUnique(1, d, 0, 1);
      SumDivides(0, y, t, d);
      SumDivides(t * y, x, -k, d);
    }
  }

  lemma InverseMod(t: int, a: int, x: int)
    requires x > 0
    ensures Inverse(t, a % x, x) <==> Inverse(t, a, x)
  {
    CongruentMod(a, x);
    ReflCongruent(t, x);
    CongruentMul(t, t, a % x, a, x);
  }

  // ----- the rounds on the two values

  /** What is left of a number when its factors of two are taken out. */
  function OddPart(n: nat): (r: nat)
    ensures r <= n && (n > 0 ==> r % 2 == 1)
  {
    if n > 0 && n % 2 == 0 then OddPart(n / 2) else n
  }

  /** The same for a number of either sign, whose magnitude is halved. */
  function SignedOddPart(n: int): int {
    if n < 0 then 0 - OddPart(-n) else OddPart(n)
  }

  /** Halves both numbers while they are even, then subtracts the smaller from the larger. */
  function Round(u: int, v: nat): (int, nat) {
    var u', v' := SignedOddPart(u), OddPart(v);
    if u' >= v' then (u' - v', v') else (u', v' - u')
  }

  function Rounds(n: nat, u: int, v: nat): (int, nat) {
    if n == 0 then (u, v) else var (u', v') := Round(u, v); Rounds(n - 1, u', v')
  }

  /** The rounds reach u = 0 exactly when u was positive and v not zero to begin with. */
  lemma {:induction false} RoundsEnd(u: int, v: nat)
    requires u != 0
    ensures (exists n: nat :: Rounds(n, u, v).0 == 0) <==> u > 0 && v > 0
    decreases if u > 0 then u + v else 0
  {
    if u < 0 || v == 0 {
      forall n: nat
        ensures Rounds(n, u, v).0 != 0
      {
        if u < 0 { StuckBelowZero(n, u, v); } else { StuckAtZero(n, u); }
      }
    } else {
      var (u', v') := Round(u, v);
      if u' == 0 {
        assert Rounds(0, u', v').0 == 0;
        assert Rounds(1, u, v).0 == 0;
      } else {
        RoundsEnd(u', v');
        var n: nat :| Rounds(n, u', v').0 == 0;
        assert Rounds(n + 1, u, v).0 == 0;
      }
    }
  }

  lemma {:induction false} StuckAtZero(n: nat, u: nat)
    requires u > 0
    ensures Rounds(n, u, 0).0 > 0
  {
    if n > 0 { StuckAtZero(n - 1, OddPart(u)); }
  }

  /** A negative u stays so: v only grows. */
  lemma {:induction false} StuckBelowZero(n: nat, u: int, v: nat)
    requires u < 0
    ensures Rounds(n, u, v).0 < 0
    decreases n
  {
    if n > 0 {
      var (u', v') := Round(u, v);
      StuckBelowZero(n - 1, u', v');
    }
  }

  /** Exactly the powers of two have no odd part but one. */
  lemma {:induction false} OddPartOfPower(n: nat)
    ensures OddPart(n) == 1 <==> exists e: nat :: n == Pow(2, e)
  {
    forall e: nat | n == Pow(2, e)
      ensures OddPart(n) == 1
    {
      OnlyTwos(e);
    }
    if OddPart(n) == 1 {
      if n % 2 == 0 {
        OddPartOfPower(n / 2);
        assert OddPart(n) == OddPart(n / 2);
        var e: nat :| n / 2 == Pow(2, e);
        assert Pow(2, e + 1) == 2 * Pow(2, e);
        assert n == Pow(2, e + 1);
      } else {
        PowZero(2);
        assert n == Pow(2, 0);
      }
    }
  }

  lemma {:induction false} OnlyTwos(e: nat)
    ensures Pow(2, e) > 0 && OddPart(Pow(2, e)) == 1
  {
    if e > 0 {
      OnlyTwos(e - 1);
      assert Pow(2, e) / 2 == Pow(2, e - 1);
    }
  }

  // ----- the odd modulus
  //
  // x is the modulus, y the number to invert; B * y = u and D * y = v modulo x all along.

  lemma CancelTwo(p: int, q: int, x: nat)
    requires x % 2 == 1 && Congruent(2 * p, 2 * q, x)
    ensures Congruent(p, q, x)
  {
    hide Congruent;
    PowZero(2);
    CancelPower(p, q, 1, x);
  }

  lemma HalveCoefficient(B: int, u: nat, x: nat, y: int)
    requires u % 2 == 0 && x % 2 == 1 && Congruent(B * y, u, x)
    ensures var e := if B % 2 == 1 then B - x else B;
            e % 2 == 0 && Congruent(e / 2 * y, u / 2, x)
  {
    hide Congruent;
    var e := if B % 2 == 1 then B - x else B;
    Halved(B, e, e / 2, u, u / 2, x, y, if B % 2 == 1 then 1 else 0);
  }

  lemma Halved(B: int, e: int, f: int, u: int, h: int, x: nat, y: int, k: int)
    requires x % 2 == 1 && e == B - k * x && e == 2 * f && u == 2 * h && Congruent(B * y, u, x)
    ensures Congruent(f * y, h, x)
  {
    Distribute(B, k * x, y);
    MulAssoc(k, x, y);
    MulAssoc(k, y, x);
    CongruentIfDiffer(e * y, B * y, x, -(k * y));
    MulAssoc(2, f, y);
    CancelTwo(f * y, h, x);
  }

  lemma SubtractCoefficient(B: int, D: int, u: int, v: int, x: nat, y: int)
    requires x > 0 && Congruent(B * y, u, x) && Congruent(D * y, v, x)
    ensures Congruent((B - D) * y, u - v, x)
  {
    Distribute(B, D, y);
    CongruentAdd(B * y, u, D * y, v, x);
  }

  /** Halves the magnitude, which is exact for an even number. */
  method Halve(n: MpInt)
    requires n.Valid()
    modifies n
    ensures n.Valid() && (old(n.Int()) % 2 == 0 ==> n.Int() == old(n.Int()) / 2)
  {
    Div2(n, n);
    ZeroIsUnused(n);
  }

  lemma OddMagnitude(n: MpInt)
    requires n.Valid()
    ensures n.Mag() % 2 == n.Int() % 2
  {}

  // How large the coefficients get: a round adds at most one modulus to the larger of them.

  ghost predicate Within(B: int, m: int) {
    -m <= B <= m
  }

  /** A coefficient whose number is still to be halved may be twice as large. */
  function Slack(u: int, m: int): int {
    if u % 2 == 0 then 2 * m else m
  }

  /** The bound of the coefficient of u while u0 is being halved. */
  ghost predicate Loosely(B: int, u: int, u0: int, x: int, m: int) {
    if u == u0 then Within(B, Slack(u, m)) else Within(B, m + x)
  }

  lemma LooselyStep(B: int, u: int, u0: int, x: int, m: int)
    requires 0 <= x <= m && 0 < u <= u0 && u % 2 == 0 && Loosely(B, u, u0, x, m)
    ensures var e := if B % 2 == 1 then B - x else B;
            e % 2 == 0 ==> Loosely(e / 2, u / 2, u0, x, m)
  {}

  lemma LooselyStart(B: int, u: int, x: int, m: int)
    requires Within(B, Slack(u, m))
    ensures Loosely(B, u, u, x, m)
  {}

  lemma LooselyEnd(B: int, u: int, u0: int, x: int, m: int)
    requires 0 <= x <= m && u % 2 == 1 && Loosely(B, u, u0, x, m)
    ensures Within(B, m + x)
  {}

  /** While u is even it is halved, and its coefficient with it. */
  method HalveWhileEven(u: MpInt, B: MpInt, x: MpInt, ghost y: int, ghost v: int, ghost y0: int, ghost m: int)
    requires u.Valid() && B.Valid() && x.Valid() && u != B && u != x && B != x
    requires u.Int() >= 0 && x.sign == ZPos && x.Mag() % 2 == 1 && Congruent(B.Int() * y, u.Int(), x.Mag())
    requires v >= 0 && CommonFrom(u.Int(), v, x.Mag(), y0)
    requires x.Mag() <= m && Within(B.Int(), Slack(u.Int(), m))
    modifies u, B
    ensures u.Valid() && B.Valid() && u.Int() == OddPart(old(u.Int()))
    ensures Congruent(B.Int() * y, u.Int(), x.Mag()) && CommonFrom(u.Int(), v, x.Mag(), y0)
    ensures u.Int() > 0 ==> Within(B.Int(), m + x.Mag())
  {
    hide Val, Congruent, CommonFrom, Loosely;
    assert Loosely(B.Int(), u.Int(), u.Int(), x.Mag(), m) by { LooselyStart(B.Int(), u.Int(), x.Mag(), m); }
    while true
      invariant u.Valid() && B.Valid() && u.Int() >= 0 && OddPart(u.Int()) == OddPart(old(u.Int()))
      invariant u.Int() <= old(u.Int()) && Loosely(B.Int(), u.Int(), old(u.Int()), x.Mag(), m)
      invariant Congruent(B.Int() * y, u.Int(), x.Mag()) && CommonFrom(u.Int(), v, x.Mag(), y0)
      decreases u.Int()
    {
      var even := u.IsEven();
      if !even {
        if u.Int() > 0 {
          LooselyEnd(B.Int(), u.Int(), old(u.Int()), x.Mag(), m);
        }
        break;
      }
      HalveCoefficient(B.Int(), u.Int(), x.Mag(), y);
      ZeroIsUnused(u);
      LooselyStep(B.Int(), u.Int(), old(u.Int()), x.Mag(), m);
      CommonHalf(u.Int(), v, x.Mag(), y0);
      Halve(u);
      HalveModulo(B, x);
    }
  }

  /** Halves a coefficient, made even first by subtracting the modulus. */
  method HalveModulo(B: MpInt, x: MpInt)
    requires B.Valid() && x.Valid() && B != x && x.sign == ZPos && x.Mag() % 2 == 1
    modifies B
    ensures B.Valid()
    ensures var b := old(B.Int()); B.Int() == (if b % 2 == 1 then b - old(x.Mag()) else b) / 2
  {
    OddMagnitude(B);
    var odd := B.IsOdd();
    if odd {
      Sub(B, x, B);
    }
    Halve(B);
  }

  /** The state of the odd-modulus loop between rounds. */
  ghost predicate Inverting(u: int, v: int, B: int, D: int, x: int, y: int) {
    && u >= 0 && v >= 0 && x > 0 && x % 2 == 1
    && Congruent(B * y, u, x) && Congruent(D * y, v, x) && CommonFrom(u, v, x, y)
  }

  lemma InvertingStart(x: nat, y: nat)
    requires x % 2 == 1 && y > 0
    ensures Inverting(x, y, 0, 1, x, y)
  {
    CongruentIfDiffer(0, x, x, -1);
  }

  lemma DifferenceInverts(u: int, v: int, B: int, D: int, x: int, y: int)
    requires Inverting(u, v, B, D, x, y)
    ensures u >= v ==> Inverting(u - v, v, B - D, D, x, y)
    ensures v > u ==> Inverting(u, v - u, B, D - B, x, y)
  {
    hide Congruent, CommonFrom;
    SubtractCoefficient(B, D, u, v, x, y);
    SubtractCoefficient(D, B, v, u, x, y);
    CommonDifference(u, v, x, y);
    CommonSwap(u, v, x, y);
    CommonDifference(v, u, x, y);
    CommonSwap(v - u, u, x, y);
  }

  /** When u has reached zero, v is the greatest common divisor and D * y = v. */
  lemma InvertingEnd(v: int, B: int, D: int, x: int, y: int)
    requires Inverting(0, v, B, D, x, y) && v > 0
    ensures v == 1 ==> Inverse(D, y, x)
    ensures v != 1 ==> forall t :: !Inverse(t, y, x)
  {
    if v != 1 {
      DivModUnique(0, v, 0, 0);
      DivModUnique(v, v, 1, 0);
      forall t
        ensures !Inverse(t, y, x)
      {
        NoInverse(v, x, y, t);
      }
    }
  }

  /** One round: halve u, halve v, subtract the smaller from the larger; by RoundsEnd the rounds go on for ever when
      v is zero, that is when b divides a. */
  method FastRound(u: MpInt, v: MpInt, B: MpInt, D: MpInt, x: MpInt, ghost y: int, ghost m: int)
    requires u.Valid() && v.Valid() && B.Valid() && D.Valid() && x.Valid()
    requires u !in {v, B, D, x} && v !in {B, D, x} && B !in {D, x} && D != x
    requires u.Int() > 0 && x.sign == ZPos && Inverting(u.Int(), v.Int(), B.Int(), D.Int(), x.Mag(), y)
    requires x.Mag() <= m && Within(B.Int(), Slack(u.Int(), m)) && Within(D.Int(), Slack(v.Int(), m))
    modifies u, v, B, D
    ensures u.Valid() && v.Valid() && B.Valid() && D.Valid()
    ensures Inverting(u.Int(), v.Int(), B.Int(), D.Int(), x.Mag(), y)
    ensures (u.Int(), v.Int()) == Round(old(u.Int()), old(v.Int()))
    ensures old(v.Int()) > 0 ==> Within(B.Int(), Slack(u.Int(), m + x.Mag())) && Within(D.Int(), Slack(v.Int(), m + x.Mag()))
    ensures old(v.Int()) > 0 ==> v.Int() > 0 && u.Int() + v.Int() < old(u.Int() + v.Int())
  {
    hide Val, Congruent, CommonFrom, OddPart, Within, Slack;
    HalveWhileEven(u, B, x, y, v.Int(), y, m);
    CommonSwap(u.Int(), v.Int(), x.Mag(), y);
    HalveWhileEven(v, D, x, y, u.Int(), y, m);
    CommonSwap(v.Int(), u.Int(), x.Mag(), y);
    ghost var some := v.Int() > 0;
    OddPartZero(v.Int());
    if some {
      DifferenceWithin(u.Int(), v.Int(), B.Int(), D.Int(), m + x.Mag());
    }
    SubtractSmaller(u, v, B, D, x.Mag(), y);
  }

  lemma OddPartZero(n: nat)
    ensures OddPart(n) > 0 <==> n > 0
  {}

  lemma DifferenceWithin(u: int, v: int, B: int, D: int, m: int)
    requires u % 2 == 1 && v % 2 == 1 && Within(B, m) && Within(D, m)
    ensures Within(B, Slack(u, m)) && Within(D, Slack(v, m))
    ensures Within(B - D, Slack(u - v, m)) && Within(D - B, Slack(v - u, m))
  {}

  method SubtractSmaller(u: MpInt, v: MpInt, B: MpInt, D: MpInt, ghost x: int, ghost y: int)
    requires u.Valid() && v.Valid() && B.Valid() && D.Valid() && u !in {v, B, D} && v !in {B, D} && B != D
    requires u.Int() > 0 && Inverting(u.Int(), v.Int(), B.Int(), D.Int(), x, y)
    modifies u, v, B, D
    ensures u.Valid() && v.Valid() && B.Valid() && D.Valid()
    ensures Inverting(u.Int(), v.Int(), B.Int(), D.Int(), x, y)
    ensures old(u.Int()) >= old(v.Int()) ==> u.Int() == old(u.Int()) - old(v.Int()) && v.Int() == old(v.Int())
    ensures old(u.Int()) < old(v.Int()) ==> u.Int() == old(u.Int()) && v.Int() == old(v.Int()) - old(u.Int())
    ensures old(u.Int()) >= old(v.Int()) ==> B.Int() == old(B.Int()) - old(D.Int()) && D.Int() == old(D.Int())
    ensures old(u.Int()) < old(v.Int()) ==> B.Int() == old(B.Int()) && D.Int() == old(D.Int()) - old(B.Int())
  {
    hide Val, Inverting;
    InvertingShape(u.Int(), v.Int(), B.Int(), D.Int(), x, y);
    DifferenceInverts(u.Int(), v.Int(), B.Int(), D.Int(), x, y);
    var order := Cmp(u, v);
    if order != Lt {
      SubtractFrom(u, v);
      SubtractFrom(B, D);
    } else {
      SubtractFrom(v, u);
      SubtractFrom(D, B);
    }
  }

  /** a = a - b. */
  method SubtractFrom(a: MpInt, b: MpInt)
    requires a.Valid() && b.Valid() && a != b
    modifies a
    ensures a.Valid() && a.Int() == old(a.Int()) - b.Int()
  {
    Sub(a, b, a);
  }

  lemma InverseShifted(t: int, k: int, y: int, x: int)
    requires Inverse(t, y, x)
    ensures Inverse(t + k * x, y, x)
  {
    Distribute(t, k * x, y);
    MulAssoc(k, x, y);
    MulAssoc(k, y, x);
    CongruentIfDiffer((t + k * x) * y, t * y, x, k * y);
  }

  /** Adds the modulus until the coefficient is not negative. */
  method AddUntilPositive(D: MpInt, b: MpInt, ghost y: int)
    requires D.Valid() && b.Valid() && D != b && b.Int() > 0 && Inverse(D.Int(), y, b.Int())
    modifies D
    ensures D.Valid() && D.Int() >= 0 && Inverse(D.Int(), y, b.Int())
    ensures old(D.Int()) < 0 ==> D.Int() < b.Int()
    ensures old(D.Int()) >= 0 ==> D.Int() == old(D.Int())
  {
    hide Val, Inverse;
    ZeroIsUnused(D);
    while D.sign == Neg
      invariant D.Valid() && Inverse(D.Int(), y, b.Int()) && (D.sign == Neg <==> D.Int() < 0)
      invariant old(D.Int()) >= 0 ==> D.Int() == old(D.Int())
      invariant old(D.Int()) < 0 ==> D.Int() < b.Int()
      decreases -D.Int()
    {
      InverseShifted(D.Int(), 1, y, b.Int());
      Add(D, b, D);
      ZeroIsUnused(D);
    }
  }

  /** The inverse for an odd modulus. By RoundsEnd it does not return when b divides a.
      The magnitude of the result inverts a; the sign is that of a, so the result inverts only a positive a. */
  method FastInvmod(a: MpInt, b: MpInt, c: MpInt) returns (res: Status)
    requires a.Valid() && b.Valid() && c.Valid() && b.sign == ZPos
    requires b.Mag() % 2 == 1 ==> a.Int() % b.Mag() != 0
    modifies c
    ensures res == Okay <==> old(b.Mag()) % 2 == 1 && exists t :: Inverse(t, old(a.Int()), old(b.Mag()))
    ensures res == Okay ==> c.Valid() && Inverse(c.Mag(), old(a.Int()), old(b.Mag())) && c.sign == old(a.sign)
    ensures res == Okay && 112 * old(b.used) + 6 <= BASE ==> c.used <= old(b.used) + 1
    ensures res == BadValue ==> unchanged(c)
  {
    hide Val, Congruent, CommonFrom, Inverse, Inverting, ModResult;
    var even := b.IsEven();
    if even {
      return BadValue;
    }
    var y := new MpInt.Init();
    res := Mod(a, b, y);
    if res != Okay {
      return;
    }
    ModForPositive(a.Int(), b.Int());
    var D, ok := InvertOdd(b, y);
    if !ok {
      NoInverseMod(a.Int(), y.Int(), b.Mag());
      return BadValue;
    }
    InverseMod(D.Int(), a.Int(), b.Mag());
    ghost var modulus, used := b.Mag(), b.used;
    ValBound(b.dp, b.used);
    MulLe(1, 112 * used + 6, modulus);
    GiveInverse(D, a, b, c);
    if 112 * used + 6 <= BASE {
      OneDigitLonger(c, modulus, used);
    }
    res := Okay;
  }

  lemma NoInverseMod(a: int, y: int, x: int)
    requires x > 0 && y == a % x && forall t :: !Inverse(t, y, x)
    ensures forall t :: !Inverse(t, a, x)
  {
    hide Inverse;
    forall t
      ensures !Inverse(t, a, x)
    {
      InverseMod(t, a, x);
    }
  }

  /** Makes the coefficient nonnegative, hands it over and gives it the sign of a. */
  method GiveInverse(D: MpInt, a: MpInt, b: MpInt, c: MpInt)
    requires D.Valid() && a.Valid() && b.Valid() && D !in {a, b, c} && b.Int() > 0
    requires a.Int() % b.Int() != 0 && Inverse(D.Int(), a.Int(), b.Int())
    modifies D, c
    ensures c.Valid() && Inverse(c.Mag(), old(a.Int()), old(b.Int())) && c.sign == old(a.sign)
    ensures c.Mag() <= if old(D.Int()) < 0 then old(b.Mag()) else old(D.Int())
  {
    hide Val, Inverse;
    AddUntilPositive(D, b, a.Int());
    InverseNonzero(D.Int(), a.Int(), b.Mag());
    ZeroIsUnused(D);
    var neg := a.sign;
    Exch(D, c);
    c.sign := neg;
  }

  lemma InverseNonzero(t: int, a: int, x: nat)
    requires Inverse(t, a, x) && a % x != 0
    ensures t != 0
  {
    if t == 0 {
      DivModUnique(0, x, 0, 0);
      if x > 1 {
        DivModUnique(1, x, 0, 1);
      }
    }
  }

  /** The rounds: ok says whether y, reduced and not zero, has an inverse modulo the odd b, which D then is. */
  method InvertOdd(b: MpInt, y: MpInt) returns (D: MpInt, ok: bool)
    requires b.Valid() && y.Valid() && b.sign == ZPos && b.Mag() % 2 == 1 && y.Int() > 0
    ensures fresh(D) && D.Valid() && b.Mag() > 0
    ensures ok ==> Inverse(D.Int(), y.Int(), b.Mag())
    ensures !ok ==> forall t :: !Inverse(t, y.Int(), b.Mag())
    ensures y.Int() < b.Mag() ==> Within(D.Int(), (112 * b.used + 6) * b.Mag())
  {
    hide Val, Congruent, CommonFrom, Inverse, Inverting, Pow, Within;
    var x := new MpInt.InitCopy(b);
    var u := new MpInt.InitCopy(x);
    var v := new MpInt.InitCopy(y);
    var B := new MpInt.Init();
    D := One();
    InvertingStart(x.Mag(), y.Int());
    StartWithin(x.Mag());
    ghost var k := FastRounds(u, v, B, D, x, y.Int());
    FewRounds(b, y.Int(), k, D.Int());
    InvertingEnd(v.Int(), B.Int(), D.Int(), x.Mag(), y.Int());
    InvertingShape(0, v.Int(), B.Int(), D.Int(), x.Mag(), y.Int());
    ZeroIsUnused(v);
    var order := CmpD(v, 1);
    ok := order == Eq;
  }

  /** Rounds until u is zero. */
  method FastRounds(u: MpInt, v: MpInt, B: MpInt, D: MpInt, x: MpInt, ghost y: int) returns (ghost k: nat)
    requires u.Valid() && v.Valid() && B.Valid() && D.Valid() && x.Valid()
    requires u !in {v, B, D, x} && v !in {B, D, x} && B !in {D, x} && D != x
    requires u.Int() > 0 && x.sign == ZPos && Inverting(u.Int(), v.Int(), B.Int(), D.Int(), x.Mag(), y)
    requires Within(B.Int(), x.Mag()) && Within(D.Int(), x.Mag())
    requires v.Int() > 0
    modifies u, v, B, D
    ensures u.Valid() && v.Valid() && B.Valid() && D.Valid()
    ensures Inverting(0, v.Int(), B.Int(), D.Int(), x.Mag(), y) && v.Int() > 0
    ensures k > 0 && Pow(2, k - 1) <= 2 * (old(u.Int()) * old(v.Int())) && Within(D.Int(), 2 * ((k + 1) * x.Mag()))
  {
    hide Val, Inverting, Pow, Within, OddPart;
    InvertingShape(u.Int(), v.Int(), B.Int(), D.Int(), x.Mag(), y);
    ghost var product := u.Int() * v.Int();
    k := 0;
    RoundsStart(u.Int(), v.Int(), B.Int(), D.Int(), x.Mag());
    while true
      invariant u.Valid() && v.Valid() && B.Valid() && D.Valid() && u.Int() > 0 && v.Int() > 0
      invariant Inverting(u.Int(), v.Int(), B.Int(), D.Int(), x.Mag(), y)
      invariant x.Mag() <= (k + 1) * x.Mag()
      invariant Within(B.Int(), Slack(u.Int(), (k + 1) * x.Mag())) && Within(D.Int(), Slack(v.Int(), (k + 1) * x.Mag()))
      invariant Shrinking(u.Int(), v.Int(), k, product)
      decreases u.Int() + v.Int()
    {
      RoundShrinksProduct(u.Int(), v.Int(), k, product);
      Distribute(k + 1, 1, x.Mag());
      FastRound(u, v, B, D, x, y, (k + 1) * x.Mag());
      k := k + 1;
      InvertingShape(u.Int(), v.Int(), B.Int(), D.Int(), x.Mag(), y);
      ZeroIsUnused(u);
      if u.used == 0 {
        SlackWithin(D.Int(), v.Int(), (k + 1) * x.Mag());
        break;
      }
    }
  }

  /** The rounds are no more than the bits of the two numbers together. */
  lemma FewRounds(b: MpInt, y: nat, k: nat, D: int)
    requires b.Valid() && k > 0 && Pow(2, k - 1) <= 2 * (b.Mag() * y) && Within(D, 2 * ((k + 1) * b.Mag()))
    ensures y < b.Mag() ==> Within(D, (112 * b.used + 6) * b.Mag())
  {
    hide Val, Pow;
    if y < b.Mag() {
      FewRoundsBelow(b, y, k);
      MulLe(2 * (k + 1), 112 * b.used + 6, b.Mag());
      MulAssoc(2, k + 1, b.Mag());
    }
  }

  lemma FewRoundsBelow(b: MpInt, y: nat, k: nat)
    requires b.Valid() && k > 0 && Pow(2, k - 1) <= 2 * (b.Mag() * y) && y < b.Mag()
    ensures k <= 56 * b.used + 2
  {
    hide Val, Pow;
    var n := DIGIT_BIT * b.used;
    ValBound(b.dp, b.used);
    WeightIsPow(b.used);
    PowPos(2, n);
    ProductBelow(b.Mag(), y, Pow(2, n), Pow(2, n));
    PowAdd(2, n, n);
    PowAdd(2, 2 * n, 1);
    PowZero(2);
    if k - 1 > 2 * n + 1 {
      PowStrict(2, 2 * n + 1, k - 1);
    }
  }

  lemma StartWithin(x: nat)
    requires x > 0
    ensures Within(0, x) && Within(1, x)
  {}

  /** A coefficient of at most so many moduli is at most one digit longer than the modulus. */
  lemma OneDigitLonger(c: MpInt, b: nat, used: nat)
    requires c.Valid() && b < Weight(used) && 112 * used + 6 <= BASE && c.Mag() <= (112 * used + 6) * b
    ensures c.used <= used + 1
  {
    hide Val, Weight;
    WeightStep(used);
    MulLe(112 * used + 6, BASE, b);
    MulLt(b, Weight(used), BASE);
    UsedBound(c, used + 1);
  }

  lemma SlackWithin(D: int, v: int, m: int)
    requires m >= 0 && Within(D, Slack(v, m))
    ensures Within(D, 2 * m)
  {}

  lemma RoundsStart(u: nat, v: nat, B: int, D: int, x: int)
    requires u > 0 && v > 0 && x >= 0 && Within(B, x) && Within(D, x)
    ensures Within(B, Slack(u, x)) && Within(D, Slack(v, x)) && u * v > 0 && Shrinking(u, v, 0, u * v)
  {
    MulLt(0, u, v);
    assert Pow(2, 0) == 1;
  }

  /** After k rounds the product of the two numbers has been halved k - 1 times. */
  ghost predicate Shrinking(u: nat, v: nat, k: nat, product: nat) {
    Pow(2, k) * (u * v) <= 2 * product && (if k == 0 then u * v == product else u % 2 == 0 || v % 2 == 0)
  }

  lemma RoundShrinksProduct(u: nat, v: nat, k: nat, product: nat)
    requires u > 0 && v > 0 && Shrinking(u, v, k, product)
    ensures Pow(2, k) <= 2 * product
    ensures var (u', v') := Round(u, v); Shrinking(u', v', k + 1, product)
  {
    var (u', v') := Round(u, v);
    var p := Pow(2, k);
    PowPos(2, k);
    MulLt(0, u, v);
    MulLe(1, u * v, p);
    RoundProduct(u, v);
    MulNat(u', v');
    if k == 0 {
      assert p == 1 && Pow(2, 1) == 2 * Pow(2, 0);
    } else {
      MulLe(2 * (u' * v'), u * v, p);
      MulAssoc(p, 2, u' * v');
      assert Pow(2, k + 1) == 2 * p;
    }
  }

  /** A round halves the product of the numbers if one of them is even, and leaves one even. */
  lemma RoundProduct(u: nat, v: nat)
    requires u > 0 && v > 0
    ensures var (u', v') := Round(u, v);
            && u' * v' <= u * v && (u % 2 == 0 || v % 2 == 0 ==> 2 * (u' * v') <= u * v)
            && (u' % 2 == 0 || v' % 2 == 0)
  {
    hide OddPart;
    OddPartEven(u);
    OddPartEven(v);
    ProductRound(u, v, OddPart(u), OddPart(v));
  }

  lemma ProductRound(u: nat, v: nat, a: nat, b: nat)
    requires a <= u && b <= v && a % 2 == 1 && b % 2 == 1 && (u % 2 == 0 ==> 2 * a <= u) && (v % 2 == 0 ==> 2 * b <= v)
    ensures var u', v' := if a >= b then a - b else a, if a >= b then b else b - a;
            && u' * v' <= u * v && (u % 2 == 0 || v % 2 == 0 ==> 2 * (u' * v') <= u * v)
            && (u' % 2 == 0 || v' % 2 == 0)
  {
    HalvedProduct(u, v, a, b);
    if a >= b {
      ProductBelow(a - b, b, a, b);
    } else {
      ProductBelow(a, b - a, a, b);
    }
  }

  lemma HalvedProduct(u: nat, v: nat, a: nat, b: nat)
    requires a <= u && b <= v && (u % 2 == 0 ==> 2 * a <= u) && (v % 2 == 0 ==> 2 * b <= v)
    ensures a * b <= u * v && (u % 2 == 0 || v % 2 == 0 ==> 2 * (a * b) <= u * v)
  {
    ProductBelow(a, b, u, v);
    if u % 2 == 0 {
      ProductBelow(2 * a, b, u, v);
      MulAssoc(2, a, b);
    } else if v % 2 == 0 {
      ProductBelow(a, 2 * b, u, v);
      MulAssoc(2, b, a);
    }
  }

  lemma OddPartEven(n: nat)
    requires n > 0
    ensures OddPart(n) % 2 == 1 && (n % 2 == 0 ==> OddPart(n) <= n / 2)
  {}

  lemma ProductBelow(a: nat, b: nat, c: nat, d: nat)
    requires a <= c && b <= d
    ensures a * b <= c * d
  {
    MulLe(a, c, b);
    MulLe(b, d, c);
  }

  lemma InvertingShape(u: int, v: int, B: int, D: int, x: int, y: int)
    requires Inverting(u, v, B, D, x, y)
    ensures u >= 0 && v >= 0
  {}

  /** A result with the sign of a inverts a exactly when a is positive. */
  lemma SignedInverse(d: nat, a: int, b: nat)
    requires b % 2 == 1 && b > 1 && a != 0 && Inverse(d, a, b)
    ensures Inverse(if a < 0 then 0 - d else d, a, b) <==> a > 0
  {
    if a < 0 && Inverse(0 - d, a, b) {
      CongruentAdd(d * a, 1, (0 - d) * a, 1, b);
      assert d * a + (0 - d) * a == 0;
      DivModUnique(0, b, 0, 0);
      DivModUnique(2, b, 0, 2);
    }
  }

  // ----- the even modulus
  //
  // A * x + B * y = u and C * x + D * y = v all along, with y the modulus.

  ghost predicate Linear(A: int, B: int, x: int, y: int, u: int) {
    A * x + B * y == u
  }

  /** With x odd and y even the coefficients can be made even without changing the sum. */
  lemma HalvePair(A: int, B: int, x: int, y: int, u: int)
    requires x % 2 == 1 && y % 2 == 0 && u % 2 == 0 && Linear(A, B, x, y, u)
    ensures A % 2 == 0 && (B % 2 == 0 ==> Linear(A / 2, B / 2, x, y, u / 2))
    ensures (A + y) % 2 == 0 && (B % 2 == 1 ==> (B - x) % 2 == 0 && Linear((A + y) / 2, (B - x) / 2, x, y, u / 2))
  {
    EvenFactor(A, B, x, y / 2, u / 2);
    Distribute(A, y, x);
    Distribute(B, x, y);
    if B % 2 == 0 {
      HalfSum(A, B, x, y, u);
    } else {
      HalfSum(A + y, B - x, x, y, u);
    }
  }

  lemma EvenFactor(A: int, B: int, x: int, h: int, k: int)
    requires x % 2 == 1 && A * x + B * (2 * h) == 2 * k
    ensures A % 2 == 0
  {
    MulAssoc(B, 2, h);
    MulAssoc(A, 2, x / 2);
    Distribute(2 * (x / 2), 1, A);
    assert A == 2 * (k - B * h - A * (x / 2));
  }

  lemma HalfSum(A: int, B: int, x: int, y: int, u: int)
    requires A % 2 == 0 && B % 2 == 0 && u % 2 == 0 && Linear(A, B, x, y, u)
    ensures Linear(A / 2, B / 2, x, y, u / 2)
  {
    MulAssoc(2, A / 2, x);
    MulAssoc(2, B / 2, y);
  }

  /** While u is even it is halved, and its two coefficients with it. */
  method HalvePairWhileEven(u: MpInt, A: MpInt, B: MpInt, x: MpInt, y: MpInt, ghost v: int)
    requires u.Valid() && A.Valid() && B.Valid() && x.Valid() && y.Valid()
    requires u !in {A, B, x, y} && A !in {B, x, y} && B !in {x, y} && y.Int() % 2 == 0
    requires x.Int() % 2 == 1 ==> Linear(A.Int(), B.Int(), x.Int(), y.Int(), u.Int())
    requires CommonFrom(u.Int(), v, x.Int(), y.Int())
    modifies u, A, B
    ensures u.Valid() && A.Valid() && B.Valid() && u.Int() == SignedOddPart(old(u.Int()))
    ensures x.Int() % 2 == 1 ==> Linear(A.Int(), B.Int(), x.Int(), y.Int(), u.Int())
    ensures CommonFrom(u.Int(), v, x.Int(), y.Int())
  {
    hide Val, Linear, CommonFrom;
    while true
      invariant u.Valid() && A.Valid() && B.Valid() && SignedOddPart(u.Int()) == SignedOddPart(old(u.Int()))
      invariant x.Int() % 2 == 1 ==> Linear(A.Int(), B.Int(), x.Int(), y.Int(), u.Int())
      invariant CommonFrom(u.Int(), v, x.Int(), y.Int())
      decreases u.Mag()
    {
      var even := u.IsEven();
      OddMagnitude(u);
      if !even {
        break;
      }
      ZeroIsUnused(u);
      ghost var u0 := u.Int();
      CommonHalf(u0, v, x.Int(), y.Int());
      Halve(u);
      HalveCoefficients(A, B, x, y, u0);
    }
  }

  /** Both coefficients halved, made even first when one of them is odd. */
  method HalveCoefficients(A: MpInt, B: MpInt, x: MpInt, y: MpInt, ghost u: int)
    requires A.Valid() && B.Valid() && x.Valid() && y.Valid() && A !in {B, x, y} && B !in {x, y}
    requires y.Int() % 2 == 0 && u % 2 == 0 && (x.Int() % 2 == 1 ==> Linear(A.Int(), B.Int(), x.Int(), y.Int(), u))
    modifies A, B
    ensures A.Valid() && B.Valid()
    ensures x.Int() % 2 == 1 ==> Linear(A.Int(), B.Int(), x.Int(), y.Int(), u / 2)
  {
    hide Val, Linear;
    if x.Int() % 2 == 1 {
      HalvePair(A.Int(), B.Int(), x.Int(), y.Int(), u);
    }
    OddMagnitude(A);
    OddMagnitude(B);
    var oddA := A.IsOdd();
    var oddB := B.IsOdd();
    if oddA || oddB {
      Add(A, y, A);
      SubtractFrom(B, x);
    }
    Halve(A);
    Halve(B);
  }

  /** The state of the even-modulus loop between rounds; the coefficients mean nothing unless x is odd. */
  ghost predicate Pairing(u: int, v: int, A: int, B: int, C: int, D: int, x: int, y: int) {
    && v > 0 && y > 0 && y % 2 == 0 && CommonFrom(u, v, x, y)
    && (x % 2 == 1 ==> Linear(A, B, x, y, u) && Linear(C, D, x, y, v))
  }

  lemma PairingStart(x: int, y: nat)
    requires y > 0 && y % 2 == 0
    ensures Pairing(x, y, 1, 0, 0, 1, x, y)
  {}

  lemma PairingShape(u: int, v: int, A: int, B: int, C: int, D: int, x: int, y: int)
    requires Pairing(u, v, A, B, C, D, x, y)
    ensures v > 0
  {}

  lemma DifferencePairs(u: int, v: int, A: int, B: int, C: int, D: int, x: int, y: int)
    requires Pairing(u, v, A, B, C, D, x, y)
    ensures u >= v ==> Pairing(u - v, v, A - C, B - D, C, D, x, y)
    ensures v > u ==> Pairing(u, v - u, A, B, C - A, D - B, x, y)
  {
    hide CommonFrom;
    CommonDifference(u, v, x, y);
    CommonSwap(u, v, x, y);
    CommonDifference(v, u, x, y);
    CommonSwap(v - u, u, x, y);
    Distribute(A, C, x);
    Distribute(B, D, y);
    Distribute(C, A, x);
    Distribute(D, B, y);
  }

  /** When u has reached zero, v is the greatest common divisor; for an odd x it is C * x modulo y. */
  lemma PairingEnd(v: int, A: int, B: int, C: int, D: int, x: int, y: int)
    requires Pairing(0, v, A, B, C, D, x, y)
    ensures v == 1 && x % 2 == 1 ==> Inverse(C, x, y)
    ensures v != 1 ==> forall t :: !Inverse(t, x, y)
  {
    if v != 1 {
      DivModUnique(0, v, 0, 0);
      DivModUnique(v, v, 1, 0);
      forall t
        ensures !Inverse(t, x, y)
      {
        NoInverse(v, y, x, t);
      }
    } else if x % 2 == 1 {
      CongruentIfDiffer(C * x, 1, y, -D);
    }
  }

  /** One round of the even-modulus loop, for an a of either sign: by RoundsEnd the rounds go on for ever when it
      is negative. */
  method SlowRound(u: MpInt, v: MpInt, A: MpInt, B: MpInt, C: MpInt, D: MpInt, x: MpInt, y: MpInt)
    requires u.Valid() && v.Valid() && A.Valid() && B.Valid() && C.Valid() && D.Valid() && x.Valid() && y.Valid()
    requires Distinct(u, v, A, B, C, D, x, y)
    requires Pairing(u.Int(), v.Int(), A.Int(), B.Int(), C.Int(), D.Int(), x.Int(), y.Int())
    modifies u, v, A, B, C, D
    ensures u.Valid() && v.Valid() && A.Valid() && B.Valid() && C.Valid() && D.Valid()
    ensures Pairing(u.Int(), v.Int(), A.Int(), B.Int(), C.Int(), D.Int(), x.Int(), y.Int())
    ensures old(v.Int()) > 0 && (u.Int(), v.Int()) == Round(old(u.Int()), old(v.Int()))
  {
    hide Val, CommonFrom, OddPart, Linear;
    HalvePairWhileEven(u, A, B, x, y, v.Int());
    CommonSwap(u.Int(), v.Int(), x.Int(), y.Int());
    HalvePairWhileEven(v, C, D, x, y, u.Int());
    CommonSwap(v.Int(), u.Int(), x.Int(), y.Int());
    SubtractSmallerPair(u, v, A, B, C, D, x.Int(), y.Int());
  }

  ghost predicate Distinct(u: MpInt, v: MpInt, A: MpInt, B: MpInt, C: MpInt, D: MpInt, x: MpInt, y: MpInt) {
    && u !in {v, A, B, C, D, x, y} && v !in {A, B, C, D, x, y} && A !in {B, C, D, x, y}
    && B !in {C, D, x, y} && C !in {D, x, y} && D !in {x, y}
  }

  method SubtractSmallerPair(u: MpInt, v: MpInt, A: MpInt, B: MpInt, C: MpInt, D: MpInt, ghost x: int, ghost y: int)
    requires u.Valid() && v.Valid() && A.Valid() && B.Valid() && C.Valid() && D.Valid()
    requires u !in {v, A, B, C, D} && v !in {A, B, C, D} && A !in {B, C, D} && B !in {C, D} && C != D
    requires Pairing(u.Int(), v.Int(), A.Int(), B.Int(), C.Int(), D.Int(), x, y)
    modifies u, v, A, B, C, D
    ensures u.Valid() && v.Valid() && A.Valid() && B.Valid() && C.Valid() && D.Valid()
    ensures Pairing(u.Int(), v.Int(), A.Int(), B.Int(), C.Int(), D.Int(), x, y)
    ensures old(u.Int()) >= old(v.Int()) ==> u.Int() == old(u.Int()) - old(v.Int()) && v.Int() == old(v.Int())
    ensures old(u.Int()) < old(v.Int()) ==> u.Int() == old(u.Int()) && v.Int() == old(v.Int()) - old(u.Int())
  {
    hide Val, Pairing;
    DifferencePairs(u.Int(), v.Int(), A.Int(), B.Int(), C.Int(), D.Int(), x, y);
    var order := Cmp(u, v);
    if order != Lt {
      SubtractTriple(u, A, B, v, C, D);
    } else {
      SubtractTriple(v, C, D, u, A, B);
    }
  }

  method SubtractTriple(u: MpInt, A: MpInt, B: MpInt, v: MpInt, C: MpInt, D: MpInt)
    requires u.Valid() && v.Valid() && A.Valid() && B.Valid() && C.Valid() && D.Valid()
    requires u !in {v, A, B, C, D} && A !in {v, B, C, D} && B !in {v, C, D}
    modifies u, A, B
    ensures u.Valid() && A.Valid() && B.Valid() && u.Int() == old(u.Int()) - v.Int()
    ensures A.Int() == old(A.Int()) - C.Int() && B.Int() == old(B.Int()) - D.Int()
  {
    hide Val;
    SubtractFrom(u, v);
    SubtractFrom(A, C);
    SubtractFrom(B, D);
  }

  lemma {:induction false} RoundShrinks(u: nat, v: nat)
    requires u > 0 && v > 0
    ensures var (u', v') := Round(u, v); 0 <= u' && u' + v' < u + v
  {}

  /** Rounds until u is zero. */
  method SlowRounds(u: MpInt, v: MpInt, A: MpInt, B: MpInt, C: MpInt, D: MpInt, x: MpInt, y: MpInt)
    requires u.Valid() && v.Valid() && A.Valid() && B.Valid() && C.Valid() && D.Valid() && x.Valid() && y.Valid()
    requires Distinct(u, v, A, B, C, D, x, y)
    requires Pairing(u.Int(), v.Int(), A.Int(), B.Int(), C.Int(), D.Int(), x.Int(), y.Int())
    requires u.Int() >= 0
    modifies u, v, A, B, C, D
    ensures u.Valid() && v.Valid() && A.Valid() && B.Valid() && C.Valid() && D.Valid()
    ensures Pairing(0, v.Int(), A.Int(), B.Int(), C.Int(), D.Int(), x.Int(), y.Int())
    ensures old(u.Int()) == 0 ==> old(v.Int()) > 0 && v.Int() == OddPart(old(v.Int()))
  {
    hide Val, Pairing, OddPart, Round;
    PairingShape(u.Int(), v.Int(), A.Int(), B.Int(), C.Int(), D.Int(), x.Int(), y.Int());
    ghost var v0, first := v.Int(), u.Int() == 0;
    ghost var x0, y0 := x.Int(), y.Int();
    while true
      invariant u.Valid() && v.Valid() && A.Valid() && B.Valid() && C.Valid() && D.Valid() && u.Int() >= 0 && v.Int() > 0
      invariant Pairing(u.Int(), v.Int(), A.Int(), B.Int(), C.Int(), D.Int(), x0, y0)
      invariant first ==> u.Int() == 0 && v.Int() == v0
      invariant !first ==> u.Int() > 0
      decreases u.Int() + v.Int()
    {
      RoundFromZero(v.Int());
      if u.Int() > 0 {
        RoundShrinks(u.Int(), v.Int());
      }
      SlowRound(u, v, A, B, C, D, x, y);
      PairingShape(u.Int(), v.Int(), A.Int(), B.Int(), C.Int(), D.Int(), x0, y0);
      ZeroIsUnused(u);
      if u.used == 0 {
        break;
      }
    }
  }

  lemma RoundFromZero(v: nat)
    requires v > 0
    ensures Round(0, v) == (0, OddPart(v))
  {}

  /** The coefficient of a moved into the range of the modulus. */
  method Normalise(C: MpInt, b: MpInt, ghost a: int, ghost inverse: bool)
    requires C.Valid() && b.Valid() && C != b && b.Int() > 0 && (inverse ==> Inverse(C.Int(), a, b.Int()))
    modifies C
    ensures C.Valid() && 0 <= C.Int() < b.Int() && (inverse ==> Inverse(C.Int(), a, b.Int()))
  {
    hide Val, Inverse;
    var order := Cmp0(C);
    while order == Lt
      invariant C.Valid() && (inverse ==> Inverse(C.Int(), a, b.Int())) && order == Compare(C.Int(), 0)
      decreases -C.Int()
    {
      if inverse { InverseShifted(C.Int(), 1, a, b.Int()); }
      Add(C, b, C);
      order := Cmp0(C);
    }
    var mag := CmpMag(C, b);
    while mag != Lt
      invariant C.Valid() && C.Int() >= 0 && (inverse ==> Inverse(C.Int(), a, b.Int()))
      invariant mag == Compare(C.Mag(), b.Mag())
      decreases C.Int()
    {
      if inverse { InverseShifted(C.Int(), -1, a, b.Int()); }
      Sub(C, b, C);
      mag := CmpMag(C, b);
    }
  }

  /** Comparison with zero, for a number whose buffer is never empty. */
  method Cmp0(C: MpInt) returns (r: Order)
    requires C.Valid()
    ensures r == Compare(C.Int(), 0)
  {
    ZeroIsUnused(C);
    if |C.dp| == 0 { return Eq; }
    r := CmpD(C, 0);
  }

  /** The extended algorithm with both coefficients, for an even modulus. */
  method SlowInvmod(a: MpInt, b: MpInt, c: MpInt) returns (res: Status)
    requires a.Valid() && b.Valid() && c.Valid() && b.Int() > 0 && b.Int() % 2 == 0
    requires a.Int() >= 0 || a.Int() % 2 == 0
    modifies c
    ensures old(a.Int()) != 0 ==> (res == Okay <==> exists t :: Inverse(t, old(a.Int()), old(b.Int())))
    ensures old(a.Int()) == 0 ==> (res == Okay <==> exists e: nat :: old(b.Int()) == Pow(2, e))
    ensures res == Okay ==> c.Valid() && 0 <= c.Int() < old(b.Int())
    ensures res == Okay && old(a.Int()) != 0 ==> Inverse(c.Int(), old(a.Int()), old(b.Int()))
    ensures res == BadValue ==> unchanged(c)
  {
    hide Val, Inverse, OddPart, Pow, Pairing;
    OddMagnitude(a);
    OddMagnitude(b);
    ZeroIsUnused(a);
    var x := new MpInt.InitCopy(a);
    var y := new MpInt.InitCopy(b);
    var evenX := x.IsEven();
    var evenY := y.IsEven();
    if evenX && evenY {
      BothEven(a.Int(), b.Int());
      return BadValue;
    }
    res := SlowInverse(x, y, b, c);
  }

  method SlowInverse(x: MpInt, y: MpInt, b: MpInt, c: MpInt) returns (res: Status)
    requires x.Valid() && y.Valid() && b.Valid() && x != y && y.Int() == b.Int() > 0 && b.Int() % 2 == 0
    requires x.Int() == 0 || (x.Int() > 0 && x.Int() % 2 == 1)
    modifies c
    ensures old(x.Int()) != 0 ==> (res == Okay <==> exists t :: Inverse(t, old(x.Int()), old(b.Int())))
    ensures old(x.Int()) == 0 ==> (res == Okay <==> exists e: nat :: old(b.Int()) == Pow(2, e))
    ensures res == Okay ==> c.Valid() && 0 <= c.Int() < old(b.Int())
    ensures res == Okay && old(x.Int()) != 0 ==> Inverse(c.Int(), old(x.Int()), old(b.Int()))
    ensures res == BadValue ==> unchanged(c)
  {
    hide Val, Inverse, OddPart, Pow;
    var v, C := PairInverse(x, y);
    var order := CmpD(v, 1);
    OddPartOfPower(b.Int());
    if order != Eq {
      return BadValue;
    }
    Normalise(C, b, x.Int(), x.Int() != 0);
    Exch(C, c);
    res := Okay;
  }

  lemma BothEven(a: int, b: int)
    requires a % 2 == 0 && b % 2 == 0 && b > 0
    ensures forall t :: !Inverse(t, a, b)
  {
    forall t
      ensures !Inverse(t, a, b)
    {
      NoInverse(2, b, a, t);
    }
  }

  /** v is the greatest common divisor of an odd x and y, and C the inverse of x if it is one;
      for a zero x it is the odd part of y. */
  method PairInverse(x: MpInt, y: MpInt) returns (v: MpInt, C: MpInt)
    requires x.Valid() && y.Valid() && x != y && y.Int() > 0 && y.Int() % 2 == 0
    requires x.Int() == 0 || (x.Int() > 0 && x.Int() % 2 == 1)
    ensures fresh(v) && fresh(C) && v.Valid() && C.Valid() && |v.dp| > 0 && v.Int() > 0
    ensures x.Int() > 0 && v.Int() == 1 ==> Inverse(C.Int(), x.Int(), y.Int())
    ensures x.Int() > 0 && v.Int() != 1 ==> forall t :: !Inverse(t, x.Int(), y.Int())
    ensures x.Int() == 0 ==> v.Int() == OddPart(y.Int())
  {
    hide Val, Inverse, OddPart;
    var u := new MpInt.InitCopy(x);
    v := new MpInt.InitCopy(y);
    var A, B := OneAndZero();
    var D;
    D, C := OneAndZero();
    RunPairs(u, v, A, B, C, D, x, y);
  }

  method One() returns (n: MpInt)
    ensures fresh(n) && n.Valid() && n.Int() == 1
  {
    n := new MpInt.Init();
    n.Set(1);
  }

  method OneAndZero() returns (n: MpInt, z: MpInt)
    ensures fresh(n) && n.Valid() && n.Int() == 1 && fresh(z) && z.Valid() && z.Int() == 0 && n != z
  {
    n := One();
    z := new MpInt.Init();
  }

  method RunPairs(u: MpInt, v: MpInt, A: MpInt, B: MpInt, C: MpInt, D: MpInt, x: MpInt, y: MpInt)
    requires u.Valid() && v.Valid() && A.Valid() && B.Valid() && C.Valid() && D.Valid() && x.Valid() && y.Valid()
    requires Distinct(u, v, A, B, C, D, x, y) && u.Int() == x.Int() >= 0 && v.Int() == y.Int() > 0 && y.Int() % 2 == 0
    requires A.Int() == D.Int() == 1 && B.Int() == C.Int() == 0
    modifies u, v, A, B, C, D
    ensures v.Valid() && C.Valid() && |v.dp| > 0 && v.Int() > 0
    ensures x.Int() % 2 == 1 && v.Int() == 1 ==> Inverse(C.Int(), x.Int(), y.Int())
    ensures v.Int() != 1 ==> forall t :: !Inverse(t, x.Int(), y.Int())
    ensures x.Int() == 0 ==> v.Int() == OddPart(y.Int())
  {
    hide Val, Inverse, OddPart, Pairing;
    PairingStart(x.Int(), y.Int());
    SlowRounds(u, v, A, B, C, D, x, y);
    PairingEnd(v.Int(), A.Int(), B.Int(), C.Int(), D.Int(), x.Int(), y.Int());
    PairingShape(0, v.Int(), A.Int(), B.Int(), C.Int(), D.Int(), x.Int(), y.Int());
    ZeroIsUnused(v);
  }

  /** The inverse in [0, b). It is right for every positive a; a zero is reported as its own inverse
      modulo a power of two, because a zero does not count as even. By RoundsEnd a negative odd a with
      an even b does not return, nor does a multiple of an odd b. */
  method InvmodSsh(a: MpInt, b: MpInt, c: MpInt) returns (res: Status)
    requires a.Valid() && b.Valid() && c.Valid()
    requires b.Int() > 0 && b.Mag() % 2 == 1 ==> a.Int() % b.Mag() != 0
    requires b.Int() > 0 && b.Mag() % 2 == 0 ==> a.Int() >= 0 || a.Mag() % 2 == 0
    modifies c
    ensures old(b.Int()) <= 0 ==> res == BadValue
    ensures old(b.Int()) > 0 && old(a.Int()) != 0 ==> (res == Okay <==> exists t :: Inverse(t, old(a.Int()), old(b.Int())))
    ensures old(b.Int()) > 0 && old(a.Int()) == 0 ==> (res == Okay <==> exists e: nat :: old(b.Int()) == Pow(2, e))
    ensures res == Okay ==> c.Valid()
    ensures res == Okay && old(b.Mag()) % 2 == 0 ==> 0 <= c.Int() < old(b.Int())
    ensures res == Okay && old(a.Int()) != 0 ==> Inverse(c.Mag(), old(a.Int()), old(b.Int()))
    ensures res == BadValue ==> unchanged(c)
  {
    hide Val, Inverse, OddPart, Pow;
    ZeroIsUnused(b);
    if b.sign == Neg || b.used == 0 {
      return BadValue;
    }
    var odd := b.IsOdd();
    if odd {
      res := FastInvmod(a, b, c);
      return;
    }
    res := SlowInvmod(a, b, c);
  }
}
