/** Modular exponentiation with an exponent of either sign. */
module MpPower {
  import opened Numbers
  import opened Congruence
  import opened MpCore
  import opened MpCompare
  import opened MpMul
  import opened MpExptmod
  import opened MpInvmod

  /** b = |a|. */
  method AbsCopy(a: MpInt, b: MpInt)
    requires a.Valid() && b.Valid()
    modifies b
    ensures b.Valid() && b.sign == ZPos && b.Mag() == old(a.Mag())
  {
    if a != b {
      Copy(a, b);
    }
    b.sign := ZPos;
  }

  /** What the product of G^|X| and the power for a negative X comes to: an inverse of a negative G has lost its sign. */
  function Missing(g: int, n: nat): int {
    if g < 0 && n % 2 == 1 then -1 else 1
  }

  lemma {:induction false} PowOfUnit(e: nat)
    ensures Pow(1, e) == 1 && Pow(-1, e) == if e % 2 == 1 then -1 else 1
  {
    if e > 0 { PowOfUnit(e - 1); }
  }

  /** c inverts g up to sign, so its power inverts the power up to sign. */
  lemma PowerOfInverse(c: int, g: int, n: nat, p: int, y: int)
    requires p > 0 && y == Pow(c, n) % p && Congruent(c * g, if g < 0 then -1 else 1, p)
    ensures Congruent(y * Pow(g, n), Missing(g, n), p)
  {
    hide Congruent, Pow;
    var s := if g < 0 then -1 else 1;
    CongruentMod(Pow(c, n), p);
    ReflCongruent(Pow(g, n), p);
    CongruentMul(y, Pow(c, n), Pow(g, n), Pow(g, n), p);
    PowProduct(c, g, n);
    CongruentPow(c * g, s, n, p);
    PowOfUnit(n);
    ChainCongruent(y * Pow(g, n), Pow(c * g, n), Missing(g, n), p);
  }

  /** The result for a negative exponent inverts G^|X| exactly when G is positive or the exponent even. */
  lemma PowerInverts(y: int, g: int, n: nat, p: int)
    requires p > 1 && p % 2 == 1 && Congruent(y * Pow(g, n), Missing(g, n), p)
    ensures Inverse(y, Pow(g, n), p) <==> g >= 0 || n % 2 == 0
  {
    hide Pow;
    if g < 0 && n % 2 == 1 && Inverse(y, Pow(g, n), p) {
      CongruentAdd(y * Pow(g, n), -1, y * Pow(g, n), 1, p);
      DivModUnique(0, p, 0, 0);
      DivModUnique(-2, p, -1, p - 2);
    }
  }

  lemma SignedCongruence(c: int, m: nat, g: int, p: int)
    requires p > 0 && Congruent(m * g, 1, p) && c == if g < 0 then 0 - m else m
    ensures Congruent(c * g, if g < 0 then -1 else 1, p)
  {
    hide Congruent;
    if g < 0 {
      ReflCongruent(0, p);
      CongruentAdd(0, 0, m * g, 1, p);
      assert c * g == 0 - m * g;
    }
  }

  /** Y = G^X mod P for X >= 0, and (1/G)^|X| mod P for X < 0; an error exactly for a modulus that is not odd and
      positive, or not prime to G when it is to be inverted. Inverting does not return when P divides G. */
  method Exptmod(G: MpInt, X: MpInt, P: MpInt, Y: MpInt) returns (res: Status)
    requires G.Valid() && X.Valid() && P.Valid()
    requires P.used <= 255 && G.used + P.used + 1 < MP_WARRAY
    requires X.Int() < 0 && P.Int() > 0 ==> 2 * P.used + 2 < MP_WARRAY && (P.Int() % 2 == 1 ==> G.Int() % P.Int() != 0)
    modifies Y
    decreases X.sign == Neg
    ensures old(X.Int()) >= 0 ==> res == if old(P.Int()) > 0 && old(P.Int()) % 2 == 1 then Okay else BadValue
    ensures old(X.Int()) >= 0 && res == Okay ==> Y.Valid() && Y.Int() == Pow(old(G.Int()), old(X.Int())) % old(P.Int())
    ensures old(X.Int()) < 0 ==> (res == Okay <==> old(P.Int()) > 0 && old(P.Int()) % 2 == 1 && exists t :: Inverse(t, old(G.Int()), old(P.Int())))
    ensures old(X.Int()) < 0 && res == Okay ==>
              Y.Valid() && 0 <= Y.Int() < old(P.Int())
              && Congruent(Y.Int() * Pow(old(G.Int()), old(X.Mag())), Missing(old(G.Int()), old(X.Mag())), old(P.Int()))
    ensures res == BadValue ==> unchanged(Y)
  {
    hide Val, Pow, Congruent, Inverse;
    ZeroIsUnused(P);
    ZeroIsUnused(X);
    if P.sign == Neg {
      return BadValue;
    }
    if X.sign == Neg {
      res := NegativePower(G, X, P, Y);
      return;
    }
    var odd := P.IsOdd();
    if odd {
      res := ExptmodFast(G, X, P, Y);
    } else {
      res := BadValue;
    }
  }

  /** Inverts the base and raises it to the exponent's magnitude. */
  method NegativePower(G: MpInt, X: MpInt, P: MpInt, Y: MpInt) returns (res: Status)
    requires G.Valid() && X.Valid() && P.Valid() && X.sign == Neg && P.sign == ZPos && P.used <= 255
    requires P.Int() > 0 ==> 2 * P.used + 2 < MP_WARRAY && (P.Int() % 2 == 1 ==> G.Int() % P.Int() != 0)
    modifies Y
    decreases X.sign == Neg, 0
    ensures res == Okay <==> old(P.Int()) > 0 && old(P.Int()) % 2 == 1 && exists t :: Inverse(t, old(G.Int()), old(P.Int()))
    ensures res == Okay ==>
              Y.Valid() && 0 <= Y.Int() < old(P.Int())
              && Congruent(Y.Int() * Pow(old(G.Int()), old(X.Mag())), Missing(old(G.Int()), old(X.Mag())), old(P.Int()))
    ensures res == BadValue ==> unchanged(Y)
  {
    hide Val, Pow, Congruent, Inverse, Missing;
    ZeroIsUnused(P);
    ghost var g, n, p := G.Int(), X.Mag(), P.Int();
    var tmpG := new MpInt.Init();
    res := FastInvmod(G, P, tmpG);
    if res != Okay {
      return;
    }
    var tmpX := new MpInt.Init();
    AbsCopy(X, tmpX);
    InverseCongruence(tmpG, g, p);
    res := Exptmod(tmpG, tmpX, P, Y);
    CongruentMod(Pow(tmpG.Int(), n), p);
    PowerOfInverse(tmpG.Int(), g, n, p, Y.Int());
  }

  lemma InverseCongruence(c: MpInt, g: int, p: int)
    requires c.Valid() && Inverse(c.Mag(), g, p) && (c.sign == if g < 0 then Neg else ZPos)
    ensures p > 0 && Congruent(c.Int() * g, if g < 0 then -1 else 1, p)
  {
    SignedCongruence(c.Int(), c.Mag(), g, p);
  }
}
