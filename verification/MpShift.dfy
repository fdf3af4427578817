/** Shifts by digits and by bits, multiplication by one digit, and bit counting. */
module MpShift {
  import opened Numbers
  import opened MpCore

  // ----- scaling upward, carry by carry

  /** The low i digits of now and the carry r hold p times the low i digits of a. */
  ghost predicate ScaledSoFar(now: seq<nat>, a: seq<nat>, p: nat, i: nat, r: nat) {
    i <= |now| && i <= |a| && Val(now, i) + r * Weight(i) == p * Val(a, i)
  }

  lemma ScaleStart(now: seq<nat>, a: seq<nat>, p: nat)
    ensures ScaledSoFar(now, a, p, 0, 0)
  {}

  lemma ScaleStep(was: seq<nat>, now: seq<nat>, a: seq<nat>, p: nat, i: nat, r: nat, r': nat)
    requires i < |was| == |now| && i < |a|
    requires forall k | 0 <= k < i :: now[k] == was[k]
    requires now[i] + r' * BASE == p * a[i] + r
    requires ScaledSoFar(was, a, p, i, r)
    ensures ScaledSoFar(now, a, p, i + 1, r')
  {
    ValFrame(was, now, i);
    var w, v := Weight(i), Val(a, i);
    CarryWeight(now[i], r', p * a[i] + r, w);
    Distribute(p * a[i], r, w);
    MulAssoc(p, a[i], w);
    Distribute(v, a[i] * w, p);
  }

  lemma ScaleEnd(now: seq<nat>, a: seq<nat>, p: nat, n: nat, r: nat)
    requires n < |now| && ScaledSoFar(now, a, p, n, r)
    ensures Val(now[n := r], n + 1) == p * Val(a, n)
    ensures r == 0 ==> Val(now, n) == p * Val(a, n)
  {
    ValFrame(now, now[n := r], n);
  }

  /** Shifting one digit left by p = 2^d and or-ing in a carry below p, q being the complementary power. */
  lemma ShiftUpDigit(x: nat, p: nat, q: nat, r: nat)
    requires 0 < p && 0 < q && p * q == BASE && x < BASE && r < p
    ensures (x * p + r) % BASE + (x / q) * BASE == p * x + r
    ensures x / q < p && x * p + r >= 0
  {
    DivMod(x, q);
    ShiftUpParts(x / q, x % q, p, q, r);
  }

  lemma ShiftUpParts(hi: nat, lo: nat, p: nat, q: nat, r: nat)
    requires 0 < p && 0 < q && p * q == BASE && q * hi + lo < BASE && lo < q && r < p
    ensures ((q * hi + lo) * p + r) % BASE + hi * BASE == p * (q * hi + lo) + r
    ensures hi < p && (q * hi + lo) * p + r >= 0
  {
    if hi >= p {
      MulLe(p, hi, q);
    }
    Distribute(q * hi, lo, p);
    MulAssoc(hi, q, p);
    MulLe(lo, q - 1, p);
    Distribute(q, 1, p);
    MulNat(lo, p);
    DivModUnique((q * hi + lo) * p + r, BASE, hi, lo * p + r);
  }

  // ----- scaling downward, remainder by remainder

  /** The digits of now from i up, and the remainder r, hold a's digits from i up divided by p. */
  ghost predicate ShrunkSoFar(now: seq<nat>, a: seq<nat>, p: nat, i: nat, n: nat, r: nat) {
    && i <= n <= |now| && n <= |a|
    && p * (Val(now, n) - Val(now, i)) + r * Weight(i) == Val(a, n) - Val(a, i)
  }

  lemma ShrinkStart(now: seq<nat>, a: seq<nat>, p: nat, n: nat)
    requires n <= |now| && n <= |a|
    ensures ShrunkSoFar(now, a, p, n, n, 0)
  {}

  lemma {:induction false} HighFrame(s: seq<nat>, t: seq<nat>, i: nat, n: nat)
    requires i <= n <= |s| && n <= |t|
    requires forall k | i <= k < n :: s[k] == t[k]
    ensures Val(s, n) - Val(s, i) == Val(t, n) - Val(t, i)
  {
    if i < n { HighFrame(s, t, i, n - 1); }
  }

  lemma ShrinkStep(was: seq<nat>, now: seq<nat>, a: seq<nat>, p: nat, i: nat, n: nat, r: nat, r': nat)
    requires i < n <= |was| == |now| && n <= |a|
    requires forall k | i < k < n :: now[k] == was[k]
    requires p * now[i] + r' == a[i] + r * BASE
    requires ShrunkSoFar(was, a, p, i + 1, n, r)
    ensures ShrunkSoFar(now, a, p, i, n, r')
  {
    HighFrame(was, now, i + 1, n);
    var w, h := Weight(i), Val(now, n) - Val(now, i + 1);
    CarryWeight(a[i], r, p * now[i] + r', w);
    Distribute(p * now[i], r', w);
    MulAssoc(p, now[i], w);
    Distribute(h, now[i] * w, p);
  }

  lemma ShrinkEnd(now: seq<nat>, a: seq<nat>, p: nat, n: nat, r: nat)
    requires ShrunkSoFar(now, a, p, 0, n, r) && r < p
    ensures Val(now, n) == Val(a, n) / p
  {
    DivModUnique(Val(a, n), p, Val(now, n), r);
  }

  /** Shifting one digit right by p = 2^d, the incoming remainder moving into the top bits. */
  lemma ShiftDownDigit(x: nat, p: nat, q: nat, r: nat)
    requires 0 < p && 0 < q && p * q == BASE && x < BASE && r < p
    ensures p * (x / p + r * q) + x % p == x + r * BASE
    ensures 0 <= x / p + r * q < BASE && x % p < p
  {
    assert x == p * (x / p) + x % p;
    Distribute(x / p, r * q, p);
    MulAssoc(p, r, q);
    if x / p >= q {
      MulLe(q, x / p, p);
    }
    MulLe(r, p - 1, q);
    Distribute(p, 1, q);
    MulNat(r, q);
  }

  // ----- whole digits

  lemma ValShift(s: seq<nat>, t: seq<nat>, b: nat, n: nat)
    requires n <= |s| && b + n <= |t|
    requires forall k | 0 <= k < b :: t[k] == 0
    requires forall k | 0 <= k < n :: t[b + k] == s[k]
    ensures Val(t, b + n) == Val(s, n) * Weight(b)
  {
    hide Val, Weight;
    ValSplit(t, b, b + n);
    ValZero(t);
    ValZeros(t, 0, b);
    ValFrame(t[b..], s, n);
  }

  /** Shift up by b digits; a zero comes out unclamped. */
  method Lshd(a: MpInt, b: nat)
    requires a.Wf()
    modifies a
    ensures a.Wf() && a.used == old(a.used) + b && a.sign == old(a.sign)
    ensures |a.dp| >= old(|a.dp|) && (old(|a.dp|) >= old(a.used) + b ==> |a.dp| == old(|a.dp|))
    ensures a.Mag() == old(a.Mag()) * Weight(b)
    ensures old(a.Valid()) && (old(a.used) > 0 || b == 0) ==> a.Valid()
  {
    hide Val, Weight;
    if b == 0 {
      assert Weight(0) == 1 by { SmallWeights(); }
      return;
    }
    ghost var s := a.dp;
    ghost var n := a.used;
    if |a.dp| < a.used + b {
      a.Grow(a.used + b);
    }
    assert a.dp[..|s|] == s;
    a.used := a.used + b;
    ShiftDigitsUp(a, b);
    ValShift(s, a.dp, b, n);
  }

  method ShiftDigitsUp(a: MpInt, b: nat)
    requires 0 < b <= a.used <= |a.dp| && Digits(a.dp)
    modifies a`dp
    ensures |a.dp| == old(|a.dp|) && Digits(a.dp)
    ensures forall k | 0 <= k < b :: a.dp[k] == 0
    ensures forall k | b <= k < a.used :: a.dp[k] == old(a.dp[k - b])
    ensures forall k | a.used <= k < |a.dp| :: a.dp[k] == old(a.dp[k])
  {
    ghost var s := a.dp;
    var x := a.used;
    while x > b
      invariant b <= x <= a.used && |a.dp| == |s| && Digits(a.dp)
      invariant forall k | x <= k < a.used :: a.dp[k] == s[k - b]
      invariant forall k | 0 <= k < x :: a.dp[k] == s[k]
      invariant forall k | a.used <= k < |s| :: a.dp[k] == s[k]
    {
      a.dp := a.dp[x - 1 := a.dp[x - 1 - b]];
      x := x - 1;
    }
    x := 0;
    while x < b
      invariant 0 <= x <= b && |a.dp| == |s| && Digits(a.dp)
      invariant forall k | b <= k < a.used :: a.dp[k] == s[k - b]
      invariant forall k | 0 <= k < x :: a.dp[k] == 0
      invariant forall k | a.used <= k < |s| :: a.dp[k] == s[k]
    {
      a.dp := a.dp[x := 0];
      x := x + 1;
    }
  }

  /** Shift down by b digits. */
  method Rshd(a: MpInt, b: nat)
    requires a.Valid()
    modifies a
    ensures a.Valid() && a.Mag() == old(a.Mag()) / Weight(b) && a.used <= old(a.used)
    ensures a.sign == if a.used == 0 then ZPos else old(a.sign)
  {
    hide Val, Weight;
    ghost var m := a.Mag();
    if b == 0 {
      SmallWeights();
      return;
    }
    if a.used <= b {
      ValBound(a.dp, a.used);
      WeightMono(a.used, b);
      a.Zero();
      ValZero(a.dp);
      DivModUnique(m, Weight(b), 0, m);
      return;
    }
    ghost var s, n := a.dp, a.used;
    ShiftDigitsDown(a, b);
    a.used := a.used - b;
    ValSplit(s, b, n);
    ValBound(s, b);
    ValFrame(s[b..], a.dp, n - b);
    DivModUnique(m, Weight(b), a.Mag(), Val(s, b));
  }

  method ShiftDigitsDown(a: MpInt, b: nat)
    requires 0 < b < a.used <= |a.dp| && Digits(a.dp)
    modifies a`dp
    ensures |a.dp| == old(|a.dp|) && Digits(a.dp)
    ensures forall k | 0 <= k < a.used - b :: a.dp[k] == old(a.dp[k + b])
    ensures forall k | a.used - b <= k < a.used :: a.dp[k] == 0
    ensures forall k | a.used <= k < |a.dp| :: a.dp[k] == old(a.dp[k])
  {
    ghost var s := a.dp;
    var x := 0;
    while x < a.used - b
      invariant 0 <= x <= a.used - b && |a.dp| == |s| && Digits(a.dp)
      invariant forall k | 0 <= k < x :: a.dp[k] == s[k + b]
      invariant forall k | x <= k < |s| :: a.dp[k] == s[k]
    {
      a.dp := a.dp[x := a.dp[x + b]];
      x := x + 1;
    }
    while x < a.used
      invariant a.used - b <= x <= a.used && |a.dp| == |s| && Digits(a.dp)
      invariant forall k | 0 <= k < a.used - b :: a.dp[k] == s[k + b]
      invariant forall k | a.used - b <= k < x :: a.dp[k] == 0
      invariant forall k | x <= k < |s| :: a.dp[k] == s[k]
    {
      a.dp := a.dp[x := 0];
      x := x + 1;
    }
  }
}
