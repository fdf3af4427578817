/** Addition and subtraction, digit by digit with a carry, in place under every aliasing. */
module MpAddSub {
  import opened Numbers
  import opened MpCore
  import opened MpCompare

  // ----- one digit of a sum and of a difference

  /** The low i digits of now and the carry u hold the sum of the low i digits of a and b. */
  ghost predicate SumSoFar(now: seq<nat>, a: seq<nat>, b: seq<nat>, i: nat, u: nat) {
    i <= |now| && i <= |a| && i <= |b| && Val(now, i) + u * Weight(i) == Val(a, i) + Val(b, i)
  }

  lemma SumStart(now: seq<nat>, a: seq<nat>, b: seq<nat>)
    ensures SumSoFar(now, a, b, 0, 0)
  {}

  lemma SumEnd(now: seq<nat>, a: seq<nat>, b: seq<nat>, n: nat, u: nat)
    requires n < |now| && SumSoFar(now, a, b, n, u)
    ensures Val(now[n := u], n + 1) == Val(a, n) + Val(b, n)
  {
    ValFrame(now, now[n := u], n);
  }

  lemma AddStep(was: seq<nat>, now: seq<nat>, a: seq<nat>, b: seq<nat>, i: nat, u: nat, u': nat)
    requires i < |was| == |now| && i < |a| && i < |b|
    requires forall k | 0 <= k < i :: now[k] == was[k]
    requires now[i] + u' * BASE == a[i] + b[i] + u
    requires SumSoFar(was, a, b, i, u)
    ensures SumSoFar(now, a, b, i + 1, u')
  {
    ValFrame(was, now, i);
    var w := Weight(i);
    CarryWeight(now[i], u', a[i] + b[i] + u, w);
    Distribute(a[i] + b[i], u, w);
    Distribute(a[i], b[i], w);
  }

  /** The difference wraps modulo the word; its top bit is the borrow. */
  lemma BorrowBit(t: int)
    requires -BASE <= t < BASE
    ensures var w := t % DIGIT_WORD;
            w / (DIGIT_WORD / 2) == (if t < 0 then 1 else 0) && w % BASE == t + (if t < 0 then BASE else 0)
  {
    if t < 0 {
      assert t % DIGIT_WORD == t + DIGIT_WORD;
    }
  }

  /** The low i digits of now, less the borrow u, hold the difference of the low i digits of a and b. */
  ghost predicate DiffSoFar(now: seq<nat>, a: seq<nat>, b: seq<nat>, i: nat, u: nat) {
    i <= |now| && i <= |a| && i <= |b| && Val(now, i) + Val(b, i) == Val(a, i) + u * Weight(i)
  }

  lemma DiffStart(now: seq<nat>, a: seq<nat>, b: seq<nat>)
    ensures DiffSoFar(now, a, b, 0, 0)
  {}

  lemma SubStep(was: seq<nat>, now: seq<nat>, a: seq<nat>, b: seq<nat>, i: nat, u: nat, u': nat)
    requires i < |was| == |now| && i < |a| && i < |b|
    requires forall k | 0 <= k < i :: now[k] == was[k]
    requires now[i] + b[i] + u == a[i] + u' * BASE
    requires DiffSoFar(was, a, b, i, u)
    ensures DiffSoFar(now, a, b, i + 1, u')
  {
    ValFrame(was, now, i);
    var w := Weight(i);
    CarryWeight(a[i], u', now[i] + b[i] + u, w);
    Distribute(now[i] + b[i], u, w);
    Distribute(now[i], b[i], w);
  }

  /** No borrow is left over when the first operand is not the smaller one. */
  lemma DiffEnd(now: seq<nat>, a: seq<nat>, b: seq<nat>, n: nat, u: nat)
    requires DiffSoFar(now, a, b, n, u) && Digits(now) && u <= 1 && Val(a, n) >= Val(b, n)
    ensures u == 0 && Val(now, n) == Val(a, n) - Val(b, n)
  {
    ValBound(now, n);
  }

  /** |c| = |a| + |b|, whatever the signs. */
  method AddMag(a: MpInt, b: MpInt, c: MpInt)
    requires a.Wf() && b.Wf() && c.Wf()
    modifies c
    ensures c.Valid() && c.Mag() == old(a.Mag()) + old(b.Mag()) && |c.dp| >= old(|c.dp|)
    ensures c.sign == if c.used == 0 then ZPos else old(c.sign)
  {
    var max := if a.used > b.used then a.used else b.used;
    if |c.dp| < max + 1 {
      c.Grow(max + 1);
    }
    if a.used > b.used {
      AddMagInPlace(a, b, c, a, b.used, a.used);
    } else {
      AddMagInPlace(a, b, c, b, a.used, b.used);
    }
  }

  /** x is the operand with max digits, the other one has min. */
  method AddMagInPlace(a: MpInt, b: MpInt, c: MpInt, x: MpInt, min: nat, max: nat)
    requires a.Wf() && b.Wf() && c.Wf() && min <= max < |c.dp| && x.used == max
    requires (x == a && b.used == min) || (x == b && a.used == min)
    modifies c
    ensures c.Valid() && c.Mag() == old(a.Mag()) + old(b.Mag()) && |c.dp| >= old(|c.dp|)
    ensures c.sign == if c.used == 0 then ZPos else old(c.sign)
  {
    hide Val, Weight;
    ghost var a0, b0 := Extend(a.dp, a.used, max), Extend(b.dp, b.used, max);
    var oldUsed := c.used;
    c.used := max + 1;
    AddDigits(a, b, c, x, min, max, a0, b0);
    c.ClearAbove(oldUsed);
    c.Clamp();
  }

  /** The two digit loops: both operands, then the rest of the longer one, then the carry. */
  method AddDigits(a: MpInt, b: MpInt, c: MpInt, x: MpInt, min: nat, max: nat, ghost a0: seq<nat>, ghost b0: seq<nat>)
    requires min <= max < |c.dp| && Digits(c.dp) && |a0| == |b0| == max && Digits(a0) && Digits(b0)
    requires min <= |a.dp| && min <= |b.dp| && max <= |x.dp| && (x == a || x == b)
    requires a.dp[..min] == a0[..min] && b.dp[..min] == b0[..min]
    requires forall k | min <= k < max :: x.dp[k] == a0[k] + b0[k]
    modifies c`dp
    ensures Digits(c.dp) && |c.dp| == old(|c.dp|) && c.dp[max + 1..] == old(c.dp[max + 1..])
    ensures Val(c.dp, max + 1) == Val(a0, max) + Val(b0, max)
  {
    hide Val, Weight;
    ghost var n, c0, a1, b1 := |c.dp|, c.dp, a.dp, b.dp;
    var u: nat := 0;
    SumStart(c0, a0, b0);
    var i := 0;
    while i < min
      invariant 0 <= i <= min && u <= 1 && |c.dp| == n && Digits(c.dp)
      invariant (a != c ==> a.dp == a1) && (b != c ==> b.dp == b1)
      invariant c.dp[i..] == c0[i..]
      invariant SumSoFar(c.dp, a0, b0, i, u)
    {
      assert a.dp[i] == a0[i] && b.dp[i] == b0[i] by {
        assert c.dp[i] == c.dp[i..][0] == c0[i];
      }
      var t := a.dp[i] + b.dp[i] + u;
      ghost var was, u0 := c.dp, u;
      c.dp := c.dp[i := t % BASE];
      u := t / BASE;
      AddStep(was, c.dp, a0, b0, i, u0, u);
      i := i + 1;
      assert was[i..] == was[i - 1..][1..];
    }
    while i < max
      invariant min <= i <= max && u <= 1 && |c.dp| == n && Digits(c.dp)
      invariant (a != c ==> a.dp == a1) && (b != c ==> b.dp == b1)
      invariant c.dp[i..] == c0[i..]
      invariant SumSoFar(c.dp, a0, b0, i, u)
    {
      assert x.dp[i] == a0[i] + b0[i] by {
        assert c.dp[i] == c.dp[i..][0] == c0[i];
      }
      var t := x.dp[i] + u;
      ghost var was, u0 := c.dp, u;
      c.dp := c.dp[i := t % BASE];
      u := t / BASE;
      AddStep(was, c.dp, a0, b0, i, u0, u);
      i := i + 1;
      assert was[i..] == was[i - 1..][1..];
    }
    SumEnd(c.dp, a0, b0, max, u);
    c.dp := c.dp[max := u];
  }

  /** |c| = |a| - |b| for |a| >= |b| and no fewer digits in a, whatever the signs. */
  method SubMag(a: MpInt, b: MpInt, c: MpInt)
    requires a.Wf() && b.Wf() && c.Wf() && b.used <= a.used && b.Mag() <= a.Mag()
    modifies c
    ensures c.Valid() && c.Mag() == old(a.Mag()) - old(b.Mag()) && c.used <= old(a.used) && |c.dp| >= old(|c.dp|)
    ensures c.sign == if c.used == 0 then ZPos else old(c.sign)
  {
    hide Val, Weight;
    var min, max := b.used, a.used;
    ghost var a0, b0 := Extend(a.dp, a.used, max), Extend(b.dp, b.used, max);
    if |c.dp| < max {
      c.Grow(max);
    }
    var oldUsed := c.used;
    c.used := max;
    SubDigits(a, b, c, min, max, a0, b0);
    c.ClearAbove(oldUsed);
    c.Clamp();
  }

  /** The two digit loops: both operands, then the rest of the first. */
  method SubDigits(a: MpInt, b: MpInt, c: MpInt, min: nat, max: nat, ghost a0: seq<nat>, ghost b0: seq<nat>)
    requires min <= max <= |c.dp| && Digits(c.dp) && |a0| == |b0| == max && Digits(a0) && Digits(b0)
    requires max <= |a.dp| && min <= |b.dp|
    requires a.dp[..max] == a0 && b.dp[..min] == b0[..min]
    requires forall k | min <= k < max :: b0[k] == 0
    requires Val(b0, max) <= Val(a0, max)
    modifies c`dp
    ensures Digits(c.dp) && |c.dp| == old(|c.dp|) && c.dp[max..] == old(c.dp[max..])
    ensures Val(c.dp, max) == Val(a0, max) - Val(b0, max)
  {
    hide Val, Weight;
    ghost var n, c0, a1, b1 := |c.dp|, c.dp, a.dp, b.dp;
    var u: nat := 0;
    DiffStart(c0, a0, b0);
    var i := 0;
    while i < min
      invariant 0 <= i <= min && u <= 1 && |c.dp| == n && Digits(c.dp)
      invariant (a != c ==> a.dp == a1) && (b != c ==> b.dp == b1)
      invariant c.dp[i..] == c0[i..]
      invariant DiffSoFar(c.dp, a0, b0, i, u)
    {
      assert a.dp[i] == a0[i] && b.dp[i] == b0[i] by {
        assert c.dp[i] == c.dp[i..][0] == c0[i];
      }
      var t := (a.dp[i] - b.dp[i] - u) % DIGIT_WORD;
      BorrowBit(a.dp[i] - b.dp[i] - u);
      ghost var was, u0 := c.dp, u;
      c.dp := c.dp[i := t % BASE];
      u := t / (DIGIT_WORD / 2);
      SubStep(was, c.dp, a0, b0, i, u0, u);
      i := i + 1;
      assert was[i..] == was[i - 1..][1..];
    }
    while i < max
      invariant min <= i <= max && u <= 1 && |c.dp| == n && Digits(c.dp)
      invariant (a != c ==> a.dp == a1)
      invariant c.dp[i..] == c0[i..]
      invariant DiffSoFar(c.dp, a0, b0, i, u)
    {
      assert a.dp[i] == a0[i] by {
        assert c.dp[i] == c.dp[i..][0] == c0[i];
      }
      var t := (a.dp[i] - u) % DIGIT_WORD;
      BorrowBit(a.dp[i] - u);
      ghost var was, u0 := c.dp, u;
      c.dp := c.dp[i := t % BASE];
      u := t / (DIGIT_WORD / 2);
      SubStep(was, c.dp, a0, b0, i, u0, u);
      i := i + 1;
      assert was[i..] == was[i - 1..][1..];
    }
    DiffEnd(c.dp, a0, b0, max, u);
  }

  /** c = a + b. */
  method Add(a: MpInt, b: MpInt, c: MpInt)
    requires a.Valid() && b.Valid() && c.Valid()
    modifies c
    ensures c.Valid() && c.Int() == old(a.Int()) + old(b.Int()) && |c.dp| >= old(|c.dp|)
  {
    hide Val;
    var sa, sb := a.sign, b.sign;
    if sa == sb {
      c.sign := sa;
      AddMag(a, b, c);
    } else {
      ClampedCompare(a, b);
      var order := CmpMag(a, b);
      if order == Lt {
        c.sign := sb;
        SubMag(b, a, c);
      } else {
        c.sign := sa;
        SubMag(a, b, c);
      }
    }
    ZeroIsUnused(c);
  }

  /** Clamped, or an unclamped zero that is not the longer number. */
  ghost predicate Subtrahend(a: MpInt, b: MpInt)
    reads a, b
  {
    b.Wf() && (b.Valid() || (b.Mag() == 0 && b.used <= a.used))
  }

  lemma SubtrahendCompares(a: MpInt, b: MpInt)
    requires a.Valid() && Subtrahend(a, b)
    ensures CompareWithLengths(a, b) == Compare(a.Mag(), b.Mag())
  {
    if b.Valid() {
      ClampedCompare(a, b);
    } else {
      ZeroIsUnused(a);
    }
  }

  /** c = a - b. The subtrahend may be an unclamped zero, provided it is not the longer one. */
  method Sub(a: MpInt, b: MpInt, c: MpInt)
    requires a.Valid() && c.Valid() && Subtrahend(a, b) && (b == c ==> b.Valid())
    modifies c
    ensures c.Valid() && c.Int() == old(a.Int()) - old(b.Int()) && |c.dp| >= old(|c.dp|)
  {
    hide Val;
    var sa, sb := a.sign, b.sign;
    if sa != sb {
      c.sign := sa;
      AddMag(a, b, c);
    } else {
      SubtrahendCompares(a, b);
      var order := CmpMag(a, b);
      if order != Lt {
        c.sign := sa;
        SubMag(a, b, c);
      } else {
        c.sign := if sa == ZPos then Neg else ZPos;
        SubMag(b, a, c);
      }
    }
    ZeroIsUnused(c);
  }
}
